/** apps/zhi-slack-bridge/src/bridge-server.ts: what decoding each chunk of bytes on its own does to the text. */
module ByteFraming {
  import opened Framing
  import opened Sequences
  import opened Utf8
  import opened Utf8Coding

  function Joined(chunks: seq<seq<Byte>>): seq<Byte> {
    if chunks == [] then [] else chunks[0] + Joined(chunks[1..])
  }

  /** What the buffer is given. */
  function Received(chunks: seq<seq<Byte>>): string {
    if chunks == [] then [] else Decode(chunks[0]) + Received(chunks[1..])
  }

  /** No chunk ends within a character. */
  ghost predicate SplitsNone(text: string, chunks: seq<seq<Byte>>) {
    forall i :: 0 <= i <= |chunks| ==> Boundary(text, |Joined(chunks[..i])|)
  }

  lemma {:induction false} EncodeLength(text: string)
    ensures |Encode(text)| == Bytes(text)
  {
    if text != [] {
      EncodeLength(text[1..]);
    }
  }

  // ------------------------------------------------------------------------------- one chunk

  /** Where `n` more bytes lead, from byte `k` of the first character on. */
  datatype Place = Place(text: string, k: nat)

  predicate InText(p: Place) {
    p.k == 0 || (p.text != [] && p.k < Width(p.text[0]))
  }

  function Left(p: Place): seq<Byte>
    requires InText(p)
  {
    if p.k == 0 then Encode(p.text) else Octets(p.text[0])[p.k..] + Encode(p.text[1..])
  }

  /** The characters of which nothing has been read. */
  function Unread(p: Place): nat
    requires InText(p)
  {
    if p.k == 0 then |p.text| else |p.text| - 1
  }

  /** Reading `n` bytes from the start of a text leads to `p`; they decode to one character for each that has
      been begun, and to exactly those characters when `p` lies between two. */
  ghost predicate Leads(text: string, n: nat, p: Place)
    requires n <= |Encode(text)|
  {
    && InText(p) && |p.text| <= |text|
    && Left(p) == Encode(text)[n..]
    && |Decode(Encode(text)[..n])| == |text| - Unread(p)
    && (p.k == 0 <==> Boundary(text, n))
    && (p.k == 0 ==> Between(text, n, |text| - |p.text|, p.text))
  }

  ghost predicate Between(text: string, n: nat, k: nat, after: string)
    requires n <= |Encode(text)|
  {
    k <= |text| && Decode(Encode(text)[..n]) == text[..k] && after == text[k..]
    && Boundary(text, n) && CharsBefore(text, n) == k
  }

  /** A chunk that begins with a character. */
  lemma {:induction false} DecodeFromStart(text: string, n: nat) returns (p: Place)
    requires n <= |Encode(text)|
    ensures Leads(text, n, p)
    decreases |text|
  {
    if n == 0 {
      p := Place(text, 0);
    } else if n < Width(text[0]) {
      p := Place(text, n);
      PartOfFirst(text[0], Encode(text[1..]), n);
    } else {
      p := DecodeFromStart(text[1..], n - Width(text[0]));
      LeadsOn(text, n, p);
    }
  }

  lemma EncodedHead(text: string, n: nat)
    requires text != [] && Width(text[0]) <= n <= |Encode(text)|
    ensures |Encode(text)| == Width(text[0]) + |Encode(text[1..])|
    ensures Decode(Encode(text)[..n]) == [text[0]] + Decode(Encode(text[1..])[..n - Width(text[0])])
    ensures Encode(text)[n..] == Encode(text[1..])[n - Width(text[0])..]
  {
    FirstThenRest(text[0], Encode(text[1..]), n);
  }

  lemma LeadsOn(text: string, n: nat, p: Place)
    requires text != [] && Width(text[0]) <= n <= |Encode(text)| && Leads(text[1..], n - Width(text[0]), p)
    ensures Leads(text, n, p)
  {
    EncodedHead(text, n);
    if p.k == 0 {
      BetweenOn(text, n, |text| - |p.text|, p.text);
    }
  }

  lemma BetweenOn(text: string, n: nat, k: nat, after: string)
    requires text != [] && Width(text[0]) <= n <= |Encode(text)| && 1 <= k
    requires Between(text[1..], n - Width(text[0]), k - 1, after)
    ensures Between(text, n, k, after)
  {
    EncodedHead(text, n);
    assert [text[0]] + text[1..][..k - 1] == text[..k];
  }

  lemma PartOfFirst(c: char, more: seq<Byte>, n: nat)
    requires 0 < n < Width(c)
    ensures |Decode((Octets(c) + more)[..n])| == 1
    ensures (Octets(c) + more)[n..] == Octets(c)[n..] + more
  {
    var u := (Octets(c) + more)[..n];
    OctetsAreWellFormed(c);
    FittingIsLongest(u, 1, n);
    assert Decode(u[n..]) == [];
  }

  lemma CutAfter<T>(a: seq<T>, b: seq<T>, n: nat)
    requires |a| <= n <= |a| + |b|
    ensures (a + b)[..n] == a + b[..n - |a|] && (a + b)[n..] == b[n - |a|..]
  {
  }

  lemma FirstThenRest(c: char, more: seq<Byte>, n: nat)
    requires Width(c) <= n <= Width(c) + |more|
    ensures Decode((Octets(c) + more)[..n]) == [c] + Decode(more[..n - Width(c)])
    ensures (Octets(c) + more)[n..] == more[n - Width(c)..]
  {
    CutAfter(Octets(c), more, n);
    DecodeFirst(c, more[..n - Width(c)]);
  }

  /** The bytes of a character from its byte `k` on, and what follows them. */
  lemma {:induction false} DecodeMiddle(c: char, k: nat, n: nat, more: seq<Byte>)
    requires 0 < k <= n <= Width(c)
    ensures |Decode(Octets(c)[k..n] + more)| == n - k + |Decode(more)|
    decreases n - k
  {
    var u := Octets(c)[k..n] + more;
    if k < n {
      OctetsAreWellFormed(c);
      assert Fitting(u, 1) == 1;
      assert u[0] == Octets(c)[k] && u[1..] == Octets(c)[k + 1..n] + more;
      DecodeMiddle(c, k + 1, n, more);
    } else {
      assert u == more;
    }
  }

  lemma StaysWithin(c: char, k: nat, n: nat, more: seq<Byte>)
    requires 0 < k && 0 < n && k + n < Width(c)
    ensures |Decode((Octets(c)[k..] + more)[..n])| == n && (Octets(c)[k..] + more)[n..] == Octets(c)[k + n..] + more
  {
    assert (Octets(c)[k..] + more)[..n] == Octets(c)[k..k + n] + [];
    DecodeMiddle(c, k, k + n, []);
  }

  lemma GoesBeyond(c: char, k: nat, n: nat, more: seq<Byte>)
    requires 0 < k < Width(c) && Width(c) - k <= n <= Width(c) - k + |more|
    ensures var m := n - (Width(c) - k);
            && |Decode((Octets(c)[k..] + more)[..n])| == Width(c) - k + |Decode(more[..m])|
            && (Octets(c)[k..] + more)[n..] == more[m..]
  {
    var m := n - (Width(c) - k);
    CutAfter(Octets(c)[k..], more, n);
    assert Octets(c)[k..] == Octets(c)[k..Width(c)];
    DecodeMiddle(c, k, Width(c), more[..m]);
  }

  /** A chunk that begins within a character gives at least one replacement too many. */
  lemma DecodeFromMiddle(p: Place, n: nat) returns (q: Place)
    requires InText(p) && p.k > 0 && 0 < n <= |Left(p)|
    ensures InText(q) && Left(q) == Left(p)[n..] && |q.text| <= |p.text|
    ensures |Decode(Left(p)[..n])| > Unread(p) - Unread(q)
  {
    if p.k + n < Width(p.text[0]) {
      q := Place(p.text, p.k + n);
      StaysWithin(p.text[0], p.k, n, Encode(p.text[1..]));
    } else {
      q := DecodeBeyond(p.text[0], p.text[1..], p.k, n);
    }
  }

  lemma DecodeBeyond(c: char, tail: string, k: nat, n: nat) returns (q: Place)
    requires 0 < k < Width(c) && Width(c) <= k + n && n <= |Octets(c)[k..] + Encode(tail)|
    ensures InText(q) && Left(q) == (Octets(c)[k..] + Encode(tail))[n..] && |q.text| <= |tail|
    ensures |Decode((Octets(c)[k..] + Encode(tail))[..n])| > |tail| - Unread(q)
  {
    GoesBeyond(c, k, n, Encode(tail));
    q := DecodeFromStart(tail, n - (Width(c) - k));
  }

  // ------------------------------------------------------------------------------ all chunks

  predicate Aligned(text: string, chunks: seq<seq<Byte>>)
    decreases |chunks|
  {
    chunks == [] ||
    (Boundary(text, |chunks[0]|) && CharsBefore(text, |chunks[0]|) <= |text|
     && Aligned(text[CharsBefore(text, |chunks[0]|)..], chunks[1..]))
  }

  /** More characters arrive than are left to read from `p`, unless the chunks respect them. */
  ghost predicate Outnumbers(p: Place, received: string, chunks: seq<seq<Byte>>)
    requires InText(p)
  {
    && |received| >= Unread(p)
    && (p.k > 0 ==> |received| > Unread(p))
    && (p.k == 0 ==> (|received| == |p.text| <==> Aligned(p.text, chunks)))
    && (p.k == 0 && Aligned(p.text, chunks) ==> received == p.text)
  }

  lemma {:induction false} ReceivedLength(p: Place, chunks: seq<seq<Byte>>)
    requires InText(p) && Joined(chunks) == Left(p)
    ensures Outnumbers(p, Received(chunks), chunks)
    decreases |chunks|
  {
    if chunks == [] {
      NothingLeft(p);
    } else {
      var n := |chunks[0]|;
      assert chunks[0] == Left(p)[..n] && Joined(chunks[1..]) == Left(p)[n..];
      if p.k == 0 {
        var q := DecodeFromStart(p.text, n);
        ReceivedLength(q, chunks[1..]);
        AfterStart(p.text, chunks, q, Received(chunks[1..]));
      } else if n == 0 {
        assert Left(p)[n..] == Left(p);
        ReceivedLength(p, chunks[1..]);
      } else {
        var q := DecodeFromMiddle(p, n);
        ReceivedLength(q, chunks[1..]);
      }
    }
  }

  lemma AfterStart(text: string, chunks: seq<seq<Byte>>, q: Place, later: string)
    requires chunks != [] && |chunks[0]| <= |Encode(text)| && chunks[0] == Encode(text)[..|chunks[0]|]
    requires Leads(text, |chunks[0]|, q) && Outnumbers(q, later, chunks[1..])
    ensures Outnumbers(Place(text, 0), Decode(chunks[0]) + later, chunks)
  {
    if q.k == 0 {
      var k := |text| - |q.text|;
      assert Between(text, |chunks[0]|, k, q.text);
      TwoParts(text, k, Decode(chunks[0]), later);
    }
  }

  lemma TwoParts(text: string, k: nat, first: string, later: string)
    requires k <= |text| && first == text[..k]
    ensures later == text[k..] ==> first + later == text
  {
  }

  lemma NothingLeft(p: Place)
    requires InText(p) && Left(p) == []
    ensures p == Place("", 0)
  {
    EncodeLength(p.text);
  }

  lemma {:induction false} BoundarySum(text: string, a: nat, b: nat)
    requires Boundary(text, a)
    ensures CharsBefore(text, a) <= |text| && (Boundary(text, a + b) <==> Boundary(text[CharsBefore(text, a)..], b))
  {
    if a != 0 {
      BoundarySum(text[1..], a - Width(text[0]), b);
      assert text[1..][CharsBefore(text[1..], a - Width(text[0]))..] == text[CharsBefore(text, a)..];
    }
  }

  lemma {:induction false} AlignedIsSplitsNone(text: string, chunks: seq<seq<Byte>>)
    ensures Aligned(text, chunks) <==> SplitsNone(text, chunks)
    decreases |chunks|
  {
    assert Joined(chunks[..0]) == [];
    if chunks != [] {
      var n := |chunks[0]|;
      assert Joined(chunks[..1]) == chunks[0] by {
        assert chunks[..1][1..] == [];
      }
      if Boundary(text, n) {
        BoundarySum(text, n, 0);
        var rest := text[CharsBefore(text, n)..];
        AlignedIsSplitsNone(rest, chunks[1..]);
        forall i | 1 <= i <= |chunks|
          ensures Boundary(text, |Joined(chunks[..i])|) <==> Boundary(rest, |Joined(chunks[1..][..i - 1])|)
        {
          assert chunks[..i][1..] == chunks[1..][..i - 1];
          BoundarySum(text, n, |Joined(chunks[1..][..i - 1])|);
        }
        if SplitsNone(text, chunks) {
          forall i | 0 <= i <= |chunks[1..]| ensures Boundary(rest, |Joined(chunks[1..][..i])|) {
            assert Boundary(text, |Joined(chunks[..i + 1])|);
          }
        }
      }
    }
  }

  /** The text arrives as it was sent exactly when no chunk ends within a character. */
  lemma ReceivedIsText(text: string, chunks: seq<seq<Byte>>)
    requires Joined(chunks) == Encode(text)
    ensures Received(chunks) == text <==> SplitsNone(text, chunks)
  {
    ReceivedLength(Place(text, 0), chunks);
    AlignedIsSplitsNone(text, chunks);
  }

  /** The bridge finds the frames of the text that was sent, and the rest after them, exactly then. */
  lemma FramesOfBytes(text: string, chunks: seq<seq<Byte>>)
    requires Joined(chunks) == Encode(text)
    ensures Split(Received(chunks), "\n") == Split(text, "\n") <==> SplitsNone(text, chunks)
  {
    ReceivedIsText(text, chunks);
    SplitIsFramed(text, "\n");
    SplitIsFramed(Received(chunks), "\n");
  }

  lemma {:induction false} ReceivedSnoc(chunks: seq<seq<Byte>>, chunk: seq<Byte>)
    ensures Received(chunks + [chunk]) == Received(chunks) + Decode(chunk)
  {
    if chunks == [] {
      assert [] + [chunk] == [chunk] && Decode(chunk) + [] == Decode(chunk);
      assert [chunk][1..] == [];
    } else {
      assert (chunks + [chunk])[1..] == chunks[1..] + [chunk];
      ReceivedSnoc(chunks[1..], chunk);
      Regroup(Decode(chunks[0]), Received(chunks[1..]), Decode(chunk));
    }
  }

  /** The listener on bytes: the chunk is decoded by itself and handed to the connection. */
  method OnBytes(connection: Connection, chunk: seq<Byte>, ghost before: seq<seq<Byte>>) returns (lines: seq<string>)
    requires connection.Valid() && connection.received == Received(before)
    modifies connection
    ensures connection.Valid() && connection.received == Received(before + [chunk])
    ensures connection.handled == old(connection.handled) + lines
  {
    ReceivedSnoc(before, chunk);
    lines := connection.OnData(Decode(chunk));
  }
}
