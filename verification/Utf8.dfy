/** Positions in UTF-8 text: a string is its scalar values, and each of them takes one to four bytes. */
module Utf8 {
  import opened Numbers

  /** Section 3 of RFC 3629. */
  function Width(c: char): (n: nat)
    ensures 1 <= n <= 4
  {
    var v := c as int;
    if v <= 0x7F then 1 else if v <= 0x7FF then 2 else if v <= 0xFFFF then 3 else 4
  }

  /** `s.len()` */
  function Bytes(s: string): nat {
    if s == [] then 0 else Width(s[0]) + Bytes(s[1..])
  }

  /** `s.is_char_boundary(b)` */
  predicate Boundary(s: string, b: nat) {
    b == 0 || (s != [] && Width(s[0]) <= b && Boundary(s[1..], b - Width(s[0])))
  }

  /** The byte index of character `k`, or the byte length when there is no such character. */
  function CharToByte(s: string, k: nat): nat {
    if s == [] || k == 0 then 0 else Width(s[0]) + CharToByte(s[1..], k - 1)
  }

  /** The number of characters before a byte index; slicing off a boundary panics. */
  function ByteToChar(s: string, b: nat): nat
    requires Boundary(s, Min(b, Bytes(s)))
  {
    CharsBefore(s, Min(b, Bytes(s)))
  }

  function CharsBefore(s: string, b: nat): nat
    requires Boundary(s, b)
  {
    if b == 0 then 0 else 1 + CharsBefore(s[1..], b - Width(s[0]))
  }

  lemma {:induction false} BoundaryInText(s: string, b: nat)
    requires Boundary(s, b)
    ensures b <= Bytes(s)
  {
    if b != 0 {
      BoundaryInText(s[1..], b - Width(s[0]));
    }
  }

  /** From characters to bytes and back: positions past the end saturate. */
  lemma {:induction false} CharByteChar(s: string, k: nat)
    ensures Boundary(s, CharToByte(s, k)) && CharToByte(s, k) <= Bytes(s)
    ensures CharsBefore(s, CharToByte(s, k)) == ByteToChar(s, CharToByte(s, k)) == Min(k, |s|)
  {
    if s != [] && k != 0 {
      CharByteChar(s[1..], k - 1);
    }
  }

  /** From bytes to characters and back, on boundaries. */
  lemma {:induction false} ByteCharByte(s: string, b: nat)
    requires Boundary(s, b)
    ensures b <= Bytes(s) && ByteToChar(s, b) <= |s| && CharToByte(s, ByteToChar(s, b)) == b
  {
    BoundaryInText(s, b);
    if b != 0 {
      BoundaryInText(s[1..], b - Width(s[0]));
      ByteCharByte(s[1..], b - Width(s[0]));
    }
  }

  lemma {:induction false} CharToByteGrows(s: string, j: nat, k: nat)
    requires j < k <= |s|
    ensures CharToByte(s, j) < CharToByte(s, k)
  {
    if j != 0 {
      CharToByteGrows(s[1..], j - 1, k - 1);
    }
  }

  lemma {:induction false} CharToByteEnd(s: string, k: nat)
    requires |s| <= k
    ensures CharToByte(s, k) == Bytes(s)
  {
    if s != [] {
      CharToByteEnd(s[1..], k - 1);
    }
  }

  lemma {:induction false} CharToByteNext(s: string, k: nat)
    requires k < |s|
    ensures CharToByte(s, k + 1) == CharToByte(s, k) + Width(s[k])
  {
    if k != 0 {
      CharToByteNext(s[1..], k - 1);
    }
  }

  /** Offsets depend only on the text before them. */
  lemma {:induction false} SamePrefix(s: string, t: string, k: nat)
    requires k <= |s| && k <= |t| && s[..k] == t[..k]
    ensures CharToByte(s, k) == CharToByte(t, k)
  {
    if k != 0 {
      assert s[0] == s[..k][0] && t[0] == t[..k][0];
      assert s[1..][..k - 1] == s[..k][1..] && t[1..][..k - 1] == t[..k][1..];
      SamePrefix(s[1..], t[1..], k - 1);
    }
  }

  /** `s[from..to]` and `s.replace_range(from..to, with)` panic off a boundary or out of order. */
  predicate Range(s: string, from: nat, to: nat) {
    Boundary(s, from) && Boundary(s, to) && from <= to
  }

  lemma {:induction false} RangeInOrder(s: string, from: nat, to: nat)
    requires Range(s, from, to)
    ensures CharsBefore(s, from) <= CharsBefore(s, to) <= |s|
  {
    if to != 0 {
      if from != 0 {
        RangeInOrder(s[1..], from - Width(s[0]), to - Width(s[0]));
      } else {
        RangeInOrder(s[1..], 0, to - Width(s[0]));
      }
    }
  }

  function Slice(s: string, from: nat, to: nat): string
    requires Range(s, from, to)
  {
    RangeInOrder(s, from, to);
    s[CharsBefore(s, from)..CharsBefore(s, to)]
  }

  function ReplaceRange(s: string, from: nat, to: nat, with: string): string
    requires Range(s, from, to)
  {
    RangeInOrder(s, from, to);
    s[..CharsBefore(s, from)] + with + s[CharsBefore(s, to)..]
  }

  /** Ranges given by character positions. */
  lemma RangeOfChars(s: string, j: nat, k: nat)
    requires j <= k <= |s|
    ensures Range(s, CharToByte(s, j), CharToByte(s, k))
    ensures CharsBefore(s, CharToByte(s, j)) == j && CharsBefore(s, CharToByte(s, k)) == k
    ensures Slice(s, CharToByte(s, j), CharToByte(s, k)) == s[j..k]
  {
    CharByteChar(s, j);
    CharByteChar(s, k);
    if j < k {
      CharToByteGrows(s, j, k);
    }
  }
}
