/** UTF-8 as bytes: encoding, and the decoding that puts U+FFFD where the bytes are no character, as the
    runtimes' `toString()` and `from_utf8_lossy` do. */
module Utf8Coding {
  import opened Utf8

  type Byte = x: int | 0 <= x < 256

  /** U+FFFD */
  const REPLACEMENT: char := '\U{FFFD}'

  /** Section 3 of RFC 3629. */
  function Octets(c: char): (o: seq<Byte>)
    ensures |o| == Width(c)
  {
    var v := c as int;
    if v <= 0x7F then [v]
    else if v <= 0x7FF then [0xC0 + v / 64, 0x80 + v % 64]
    else if v <= 0xFFFF then [0xE0 + v / 64 / 64, 0x80 + v / 64 % 64, 0x80 + v % 64]
    else [0xF0 + v / 64 / 64 / 64, 0x80 + v / 64 / 64 % 64, 0x80 + v / 64 % 64, 0x80 + v % 64]
  }

  function Encode(text: string): seq<Byte> {
    if text == [] then [] else Octets(text[0]) + Encode(text[1..])
  }

  /** How many bytes a character has that begins with this one; none begins with some of them. */
  function Length(lead: Byte): nat {
    if lead <= 0x7F then 1
    else if lead < 0xC2 then 0
    else if lead <= 0xDF then 2
    else if lead <= 0xEF then 3
    else if lead <= 0xF4 then 4
    else 0
  }

  /** Which bytes may stand at place `k` of a character (section 4 of RFC 3629). */
  predicate Fits(lead: Byte, k: nat, b: Byte) {
    (if k == 1 && lead == 0xE0 then 0xA0 else if k == 1 && lead == 0xF0 then 0x90 else 0x80) <= b
    <= (if k == 1 && lead == 0xED then 0x9F else if k == 1 && lead == 0xF4 then 0x8F else 0xBF)
  }

  /** How far the bytes go on being a character from place `k` on. */
  function Fitting(u: seq<Byte>, k: nat): (n: nat)
    requires 1 <= k <= |u|
    ensures k <= n <= |u| && (n <= Length(u[0]) || n == k)
    ensures forall i :: k <= i < n ==> Fits(u[0], i, u[i])
    ensures n < |u| && n < Length(u[0]) ==> !Fits(u[0], n, u[n])
    decreases |u| - k
  {
    if k < |u| && k < Length(u[0]) && Fits(u[0], k, u[k]) then Fitting(u, k + 1) else k
  }

  predicate WellFormed(o: seq<Byte>) {
    o != [] && |o| == Length(o[0]) && forall i :: 1 <= i < |o| ==> Fits(o[0], i, o[i])
  }

  function Scalar(o: seq<Byte>): char
    requires WellFormed(o)
  {
    var a: int := o[0];
    if |o| == 1 then a as char
    else if |o| == 2 then Shifted(a - 0xC0, o[1]) as char
    else if |o| == 3 then Shifted(Shifted(a - 0xE0, o[1]), o[2]) as char
    else Shifted(Shifted(Shifted(a - 0xF0, o[1]), o[2]), o[3]) as char
  }

  function Shifted(v: int, b: Byte): int {
    v * 64 + (b - 0x80)
  }

  /** A whole character is decoded; the longest beginning of one gives one replacement, and a byte that
      begins none gives another. */
  function Decode(u: seq<Byte>): string {
    if u == [] then []
    else
      var n := Fitting(u, 1);
      [if n == Length(u[0]) then Scalar(u[..n]) else REPLACEMENT] + Decode(u[n..])
  }

  lemma OctetsAreWellFormed(c: char)
    ensures WellFormed(Octets(c)) && Scalar(Octets(c)) == c
    ensures forall i :: 1 <= i < Width(c) ==> Length(Octets(c)[i]) == 0
  {
  }

  lemma LastSix(v: int, b: Byte)
    requires 0x80 <= b <= 0xBF
    ensures Shifted(v, b) / 64 == v && Shifted(v, b) % 64 == b - 0x80
  {
  }

  lemma ScalarHasOctets(o: seq<Byte>)
    requires WellFormed(o)
    ensures Octets(Scalar(o)) == o
  {
    var a: int := o[0];
    if |o| == 2 {
      LastSix(a - 0xC0, o[1]);
    } else if |o| == 3 {
      LastSix(a - 0xE0, o[1]);
      LastSix(Shifted(a - 0xE0, o[1]), o[2]);
    } else if |o| == 4 {
      LastSix(a - 0xF0, o[1]);
      LastSix(Shifted(a - 0xF0, o[1]), o[2]);
      LastSix(Shifted(Shifted(a - 0xF0, o[1]), o[2]), o[3]);
    }
  }

  /** The bytes go on being the character they begin, for as many as are there. */
  lemma {:induction false} FittingIsLongest(u: seq<Byte>, k: nat, n: nat)
    requires 1 <= k <= n <= |u| && n <= Length(u[0]) && forall i :: k <= i < n ==> Fits(u[0], i, u[i])
    requires n == |u| || n == Length(u[0]) || !Fits(u[0], n, u[n])
    ensures Fitting(u, k) == n
    decreases n - k
  {
    if k < n {
      FittingIsLongest(u, k + 1, n);
    }
  }

  lemma DecodeFirst(c: char, more: seq<Byte>)
    ensures Decode(Octets(c) + more) == [c] + Decode(more)
  {
    OctetsAreWellFormed(c);
    var u := Octets(c) + more;
    FittingIsLongest(u, 1, Width(c));
    assert u[..Width(c)] == Octets(c) && u[Width(c)..] == more;
  }

  lemma EncodeFirst(c: char, text: string)
    ensures Encode([c] + text) == Octets(c) + Encode(text)
  {
    assert ([c] + text)[1..] == text;
  }

  /** Decoding undoes encoding, for every text. */
  lemma {:induction false} DecodeUndoesEncode(text: string)
    ensures Decode(Encode(text)) == text
  {
    if text != [] {
      DecodeFirst(text[0], Encode(text[1..]));
      DecodeUndoesEncode(text[1..]);
    }
  }

  /** UTF-8: one well-formed character after the other. */
  predicate IsUtf8(u: seq<Byte>) {
    u == [] || (Length(u[0]) > 0 && Length(u[0]) <= |u| && WellFormed(u[..Length(u[0])]) && IsUtf8(u[Length(u[0])..]))
  }

  lemma {:induction false} EncodedIsUtf8(text: string)
    ensures IsUtf8(Encode(text))
  {
    if text != [] {
      OctetsAreWellFormed(text[0]);
      EncodedIsUtf8(text[1..]);
      var u := Encode(text);
      assert u[..Width(text[0])] == Octets(text[0]) && u[Width(text[0])..] == Encode(text[1..]);
    }
  }

  /** Nothing is lost by decoding exactly when the bytes are UTF-8. */
  lemma {:induction false} EncodeUndoesDecode(u: seq<Byte>)
    ensures Encode(Decode(u)) == u <==> IsUtf8(u)
    decreases |u|
  {
    if IsUtf8(u) && u != [] {
      var n := Length(u[0]);
      var c := Scalar(u[..n]);
      ScalarHasOctets(u[..n]);
      assert u == u[..n] + u[n..];
      DecodeFirst(c, u[n..]);
      EncodeUndoesDecode(u[n..]);
      EncodeFirst(c, Decode(u[n..]));
    } else {
      EncodedIsUtf8(Decode(u));
    }
  }

  /** A letter, an accented letter, a currency sign and an emoji. */
  lemma Samples()
    ensures Octets('A') == [0x41] && Octets('\U{E9}') == [0xC3, 0xA9]
    ensures Octets('\U{20AC}') == [0xE2, 0x82, 0xAC] && Octets('\U{1F600}') == [0xF0, 0x9F, 0x98, 0x80]
  {
  }
}
