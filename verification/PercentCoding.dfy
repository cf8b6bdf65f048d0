/** chronicle/src/store/mod.rs and chronicle/src/screen/inbox.rs: percent-encoding of a path segment and
    the decoder, on bytes and on text. */
module PercentCoding {
  import opened Wrappers
  import Utf8Coding

  type Byte = Utf8Coding.Byte

  const PERCENT: Byte := '%' as int

  function Code(c: char): int {
    c as int
  }

  predicate Between(b: Byte, low: char, high: char) {
    Code(low) <= b <= Code(high)
  }

  /** Section 2.3 of RFC 3986. */
  predicate Unreserved(b: Byte) {
    || Between(b, 'a', 'z') || Between(b, 'A', 'Z') || Between(b, '0', '9')
    || b == Code('-') || b == Code('_') || b == Code('.') || b == Code('~')
  }

  /** One digit of an upper-case triple. */
  function HexDigit(v: int): (d: Byte)
    requires 0 <= v < 16
    ensures Unreserved(d) && HexValue(d) == Some(v)
  {
    if v < 10 then Code('0') + v else Code('A') + (v - 10)
  }

  function HexValue(b: Byte): (v: Option<int>)
    ensures v.Some? ==> 0 <= v.value < 16
  {
    if Between(b, '0', '9') then Some(b - Code('0'))
    else if Between(b, 'a', 'f') then Some(b - Code('a') + 10)
    else if Between(b, 'A', 'F') then Some(b - Code('A') + 10)
    else None
  }

  function Triple(b: Byte): seq<Byte> {
    [PERCENT, HexDigit(b / 16), HexDigit(b % 16)]
  }

  function EncodeByte(b: Byte): seq<Byte> {
    if Unreserved(b) then [b] else Triple(b)
  }

  function Encode(value: seq<Byte>): seq<Byte> {
    if value == [] then [] else EncodeByte(value[0]) + Encode(value[1..])
  }

  /** A percent sign with two hexadecimal digits after it. */
  predicate AtTriple(s: seq<Byte>) {
    |s| >= 3 && s[0] == PERCENT && HexValue(s[1]).Some? && HexValue(s[2]).Some?
  }

  /** Anything that is not such a triple stands for itself. */
  function Decode(s: seq<Byte>): seq<Byte> {
    if s == [] then []
    else if AtTriple(s) then [HexValue(s[1]).value * 16 + HexValue(s[2]).value] + Decode(s[3..])
    else [s[0]] + Decode(s[1..])
  }

  // ------------------------------------------------------------------------------ round trips

  lemma DecodeOne(b: Byte, rest: seq<Byte>)
    ensures Decode(EncodeByte(b) + rest) == [b] + Decode(rest)
  {
    var s := EncodeByte(b) + rest;
    if Unreserved(b) {
      assert s[0] == b && s[1..] == rest;
    } else {
      assert s[0] == PERCENT && s[1] == HexDigit(b / 16) && s[2] == HexDigit(b % 16) && s[3..] == rest;
      assert b / 16 * 16 + b % 16 == b;
    }
  }

  /** Decoding undoes encoding, for every byte string. */
  lemma {:induction false} DecodeUndoesEncode(value: seq<Byte>)
    ensures Decode(Encode(value)) == value
  {
    if value != [] {
      DecodeOne(value[0], Encode(value[1..]));
      DecodeUndoesEncode(value[1..]);
    }
  }

  predicate UpperHex(b: Byte) {
    Between(b, '0', '9') || Between(b, 'A', 'F')
  }

  /** Unreserved bytes, and upper-case triples for the others. */
  predicate Canonical(s: seq<Byte>) {
    if s == [] then true
    else if Unreserved(s[0]) then Canonical(s[1..])
    else
      && |s| >= 3 && s[0] == PERCENT && UpperHex(s[1]) && UpperHex(s[2])
      && !Unreserved(HexValue(s[1]).value * 16 + HexValue(s[2]).value) && Canonical(s[3..])
  }

  lemma {:induction false} EncodedIsCanonical(value: seq<Byte>)
    ensures Canonical(Encode(value))
  {
    if value != [] {
      EncodedIsCanonical(value[1..]);
      var s, b := Encode(value), value[0];
      if Unreserved(b) {
        assert s[0] == b && s[1..] == Encode(value[1..]);
      } else {
        assert s[0] == PERCENT && s[1] == HexDigit(b / 16) && s[2] == HexDigit(b % 16) && s[3..] == Encode(value[1..]);
        assert b / 16 * 16 + b % 16 == b;
      }
    }
  }

  lemma HexDigitOfValue(b: Byte)
    requires UpperHex(b)
    ensures HexDigit(HexValue(b).value) == b
  {
  }

  lemma HighAndLow(h: int, l: int)
    requires 0 <= h < 16 && 0 <= l < 16
    ensures (h * 16 + l) / 16 == h && (h * 16 + l) % 16 == l
  {
  }

  lemma TripleComesBack(high: Byte, low: Byte)
    requires UpperHex(high) && UpperHex(low)
    ensures Triple(HexValue(high).value * 16 + HexValue(low).value) == [PERCENT, high, low]
  {
    HexDigitOfValue(high);
    HexDigitOfValue(low);
    HighAndLow(HexValue(high).value, HexValue(low).value);
  }

  /** The encodings are exactly the canonical strings: on those, encoding undoes decoding. */
  lemma {:induction false} EncodeUndoesDecode(s: seq<Byte>)
    ensures Canonical(s) <==> Encode(Decode(s)) == s
    decreases |s|
  {
    EncodedIsCanonical(Decode(s));
    if Canonical(s) && s != [] {
      if Unreserved(s[0]) {
        EncodeUndoesDecode(s[1..]);
        assert Decode(s) == [s[0]] + Decode(s[1..]);
        assert s == [s[0]] + s[1..];
      } else {
        EncodeUndoesDecode(s[3..]);
        TripleComesBack(s[1], s[2]);
        var b := HexValue(s[1]).value * 16 + HexValue(s[2]).value;
        assert Decode(s) == [b] + Decode(s[3..]);
        assert s == Triple(b) + s[3..];
      }
    }
  }

  // ------------------------------------------------------------------------------------ on text

  /** `byte as char` for each */
  function Characters(s: seq<Byte>): string {
    seq(|s|, i requires 0 <= i < |s| => s[i] as char)
  }

  function EncodeText(value: string): string {
    Characters(Encode(Utf8Coding.Encode(value)))
  }

  function DecodeText(value: string): string {
    Utf8Coding.Decode(Decode(Utf8Coding.Encode(value)))
  }

  predicate IsAscii(s: seq<Byte>) {
    forall k :: 0 <= k < |s| ==> s[k] < 128
  }

  lemma {:induction false} CharactersOfAscii(s: seq<Byte>)
    requires IsAscii(s)
    ensures Utf8Coding.Encode(Characters(s)) == s
  {
    if s != [] {
      assert Characters(s)[1..] == Characters(s[1..]);
      CharactersOfAscii(s[1..]);
    }
  }

  lemma {:induction false} CanonicalIsAscii(s: seq<Byte>)
    requires Canonical(s)
    ensures IsAscii(s)
  {
    if s != [] {
      if Unreserved(s[0]) {
        CanonicalIsAscii(s[1..]);
        assert s == [s[0]] + s[1..];
      } else {
        CanonicalIsAscii(s[3..]);
        assert s == [s[0], s[1], s[2]] + s[3..];
      }
    }
  }

  lemma EncodedBytes(value: string)
    ensures Utf8Coding.Encode(EncodeText(value)) == Encode(Utf8Coding.Encode(value))
  {
    EncodedIsCanonical(Utf8Coding.Encode(value));
    CanonicalIsAscii(Encode(Utf8Coding.Encode(value)));
    CharactersOfAscii(Encode(Utf8Coding.Encode(value)));
  }

  /** A segment comes back as the text it was, whatever its characters. */
  lemma TextComesBack(value: string)
    ensures DecodeText(EncodeText(value)) == value
  {
    EncodedBytes(value);
    DecodeUndoesEncode(Utf8Coding.Encode(value));
    Utf8Coding.DecodeUndoesEncode(value);
  }

  /** A text comes back from being decoded and encoded exactly when it is canonical and its triples spell UTF-8;
      otherwise two texts have one decoding. */
  lemma SegmentComesBack(value: string)
    ensures EncodeText(DecodeText(value)) == value
       <==> Canonical(Utf8Coding.Encode(value)) && Utf8Coding.IsUtf8(Decode(Utf8Coding.Encode(value)))
  {
    var bytes, text := Utf8Coding.Encode(value), DecodeText(value);
    EncodedBytes(text);
    if EncodeText(text) == value {
      EncodedIsCanonical(Utf8Coding.Encode(text));
      DecodeUndoesEncode(Utf8Coding.Encode(text));
      Utf8Coding.EncodedIsUtf8(text);
    }
    if Canonical(bytes) && Utf8Coding.IsUtf8(Decode(bytes)) {
      EncodeUndoesDecode(bytes);
      Utf8Coding.EncodeUndoesDecode(Decode(bytes));
      Utf8Coding.DecodeUndoesEncode(EncodeText(text));
      Utf8Coding.DecodeUndoesEncode(value);
    }
  }

  // --------------------------------------------------------------------------------- the loops

  lemma {:induction false} EncodeSnoc(value: seq<Byte>, b: Byte)
    ensures Encode(value + [b]) == Encode(value) + EncodeByte(b)
  {
    if value == [] {
      assert [b][1..] == [] && EncodeByte(b) + [] == EncodeByte(b);
      assert [] + [b] == [b];
    } else {
      assert (value + [b])[1..] == value[1..] + [b];
      EncodeSnoc(value[1..], b);
    }
  }

  lemma OneEncoded(bytes: seq<Byte>, i: nat)
    requires i < |bytes|
    ensures Characters(Encode(bytes[..i + 1])) == Characters(Encode(bytes[..i])) + Characters(EncodeByte(bytes[i]))
    ensures Unreserved(bytes[i]) ==> Characters(EncodeByte(bytes[i])) == [bytes[i] as char]
  {
    EncodeSnoc(bytes[..i], bytes[i]);
    assert bytes[..i + 1] == bytes[..i] + [bytes[i]];
  }

  /** `encode_path_segment` */
  method EncodePathSegment(value: string) returns (encoded: string)
    ensures encoded == EncodeText(value)
  {
    encoded := [];
    var bytes := Utf8Coding.Encode(value);
    for i := 0 to |bytes|
      invariant encoded == Characters(Encode(bytes[..i]))
    {
      OneEncoded(bytes, i);
      if Unreserved(bytes[i]) {
        encoded := encoded + [bytes[i] as char];
      } else {
        encoded := encoded + Characters(Triple(bytes[i]));
      }
    }
    assert bytes[..|bytes|] == bytes;
  }

  lemma DecodeAt(bytes: seq<Byte>, index: nat)
    requires index < |bytes|
    ensures AtTriple(bytes[index..]) ==>
              Decode(bytes[index..]) == [HexValue(bytes[index + 1]).value * 16 + HexValue(bytes[index + 2]).value]
                + Decode(bytes[index + 3..])
    ensures !AtTriple(bytes[index..]) ==> Decode(bytes[index..]) == [bytes[index]] + Decode(bytes[index + 1..])
  {
    assert bytes[index..][1..] == bytes[index + 1..];
    if AtTriple(bytes[index..]) {
      assert bytes[index..][3..] == bytes[index + 3..];
    }
  }

  lemma OneDecoded(output: seq<Byte>, b: Byte, rest: seq<Byte>)
    ensures output + ([b] + rest) == (output + [b]) + rest
  {
  }

  /** `percent_decode` */
  method PercentDecode(value: string) returns (text: string)
    ensures text == DecodeText(value)
  {
    var output := DecodeTriples(Utf8Coding.Encode(value));
    text := Utf8Coding.Decode(output);
  }

  /** The loop of `percent_decode`. */
  method DecodeTriples(bytes: seq<Byte>) returns (output: seq<Byte>)
    ensures output == Decode(bytes)
  {
    output := [];
    var index := 0;
    assert bytes[0..] == bytes;
    while index < |bytes|
      invariant index <= |bytes| && output + Decode(bytes[index..]) == Decode(bytes)
    {
      DecodeAt(bytes, index);
      if bytes[index] == PERCENT && index + 2 < |bytes| {
        var high, low := HexValue(bytes[index + 1]), HexValue(bytes[index + 2]);
        if high.Some? && low.Some? {
          OneDecoded(output, high.value * 16 + low.value, Decode(bytes[index + 3..]));
          output := output + [high.value * 16 + low.value];
          index := index + 3;
          continue;
        }
      }
      OneDecoded(output, bytes[index], Decode(bytes[index + 1..]));
      output := output + [bytes[index]];
      index := index + 1;
    }
  }

  /** A triple holds the byte as two hexadecimal digits, the higher one first. */
  lemma TripleIs(high: int, low: int)
    requires 0 <= high < 16 && 0 <= low < 16
    ensures Characters(Triple(16 * high + low)) == ['%', "0123456789ABCDEF"[high], "0123456789ABCDEF"[low]]
  {
    HighAndLow(high, low);
    DigitIs(high);
    DigitIs(low);
  }

  lemma DigitIs(v: int)
    requires 0 <= v < 16
    ensures HexDigit(v) as char == "0123456789ABCDEF"[v]
  {
  }
}
