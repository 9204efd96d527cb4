/** Record marking (section 11 of RFC 5531) as produced by the server's
    vectored writer: how one reply, given as a list of memory spans, is cut
    into fragments, what bytes go on the wire for it, and a reader that takes
    those bytes apart again. */
module RecordMarking {
  import opened Common

  /** Bit 31 of a fragment header: set only on the last fragment of a record. */
  const LastFrag: nat := 0x8000_0000
  const Word: nat := 0x1_0000_0000

  /** The 4-byte big-endian encoding of a 32-bit unsigned value (htonl). */
  function BigEndian32(x: nat): (r: seq<byte>)
    requires x < Word
    ensures |r| == 4 && FromBigEndian32(r) == x
  {
    var q1, b3 := x / 0x100, x % 0x100;
    var q2, b2 := q1 / 0x100, q1 % 0x100;
    var b0, b1 := q2 / 0x100, q2 % 0x100;
    assert x == ((b0 * 0x100 + b1) * 0x100 + b2) * 0x100 + b3;
    [b0 as byte, b1 as byte, b2 as byte, b3 as byte]
  }

  function FromBigEndian32(b: seq<byte>): (x: nat)
    requires |b| == 4
    ensures x < Word
  {
    b[0] as nat * 0x100_0000 + b[1] as nat * 0x1_0000 + b[2] as nat * 0x100 + b[3] as nat
  }

  /** A fragment header: the payload length, which excludes the header's own
      four bytes, with bit 31 set on the last fragment. */
  function Header(len: nat, last: bool): (h: seq<byte>)
    requires len < LastFrag
    ensures |h| == 4
    ensures FromBigEndian32(h) >= LastFrag <==> last
    ensures FromBigEndian32(h) % LastFrag == len
  {
    BigEndian32(if last then len + LastFrag else len)
  }

  /** The writer's precondition on a message: no single span reaches 2^31. */
  predicate ValidSpans(spans: seq<seq<byte>>)
  {
    forall i :: 0 <= i < |spans| ==> |spans[i]| < LastFrag
  }

  /** One fragment: the spans spans[start..end] and whether its header
      carries the last-fragment bit. */
  datatype Frag = Frag(start: nat, end: nat, last: bool)

  function Payload(spans: seq<seq<byte>>, f: Frag): seq<byte>
    requires f.start <= f.end <= |spans|
  {
    Flatten(spans[f.start..f.end])
  }

  /** A fragment the writer can emit in one writev: at least one span, at most
      maxiov vector slots counting the header, payload below 2^31. */
  predicate FragOk(spans: seq<seq<byte>>, maxiov: nat, f: Frag)
  {
    && f.start < f.end <= |spans|
    && f.end - f.start + 1 <= maxiov
    && |Payload(spans, f)| < LastFrag
  }

  /** The end of the fragment that starts at span s, given that spans[s..i]
      are already in it: spans are added whole while a vector slot is left
      and the payload stays below 2^31. */
  function FragEnd(spans: seq<seq<byte>>, s: nat, i: nat, maxiov: nat): (e: nat)
    requires s <= i <= |spans| && i - s + 1 <= maxiov
    requires |Flatten(spans[s..i])| < LastFrag
    ensures i <= e <= |spans| && e - s + 1 <= maxiov
    ensures |Flatten(spans[s..e])| < LastFrag
    ensures e < |spans| ==> e - s + 1 == maxiov || |Flatten(spans[s..e])| + |spans[e]| >= LastFrag
    ensures i < |spans| && i - s + 1 < maxiov && |Flatten(spans[s..i])| + |spans[i]| < LastFrag ==> i < e
    decreases |spans| - i
  {
    if i < |spans| && i - s + 1 < maxiov && |Flatten(spans[s..i])| + |spans[i]| < LastFrag then
      FlattenExtend(spans, s, i);
      FragEnd(spans, s, i + 1, maxiov)
    else
      i
  }

  /** The fragments the writer emits for spans[s..], as the source decides
      them: a new fragment is started while bytes remain, and its header gets
      the last-fragment bit exactly when it reaches the final span. */
  function Frames(spans: seq<seq<byte>>, s: nat, maxiov: nat): (fs: seq<Frag>)
    requires s <= |spans| && ValidSpans(spans) && maxiov >= 2
    ensures AllOk(spans, maxiov, fs)
    decreases |spans| - s
  {
    if Flatten(spans[s..]) == [] then []
    else
      assert s < |spans| && spans[s..s] == [];
      var e := FragEnd(spans, s, s, maxiov);
      var rest := Frames(spans, e, maxiov);
      var fs := [Frag(s, e, e == |spans|)] + rest;
      assert forall k :: 1 <= k < |fs| ==> fs[k] == rest[k - 1];
      fs
  }

  /** Frames, one step unfolded: the first fragment runs from s to FragEnd. */
  lemma FramesUnfold(spans: seq<seq<byte>>, s: nat, maxiov: nat)
    requires s <= |spans| && ValidSpans(spans) && maxiov >= 2
    requires Flatten(spans[s..]) != []
    ensures s < |spans| && spans[s..s] == []
    ensures var e := FragEnd(spans, s, s, maxiov);
      Frames(spans, s, maxiov) == [Frag(s, e, e == |spans|)] + Frames(spans, e, maxiov)
  {
    assert s < |spans| && spans[s..s] == [];
  }

  /** The fragments tile spans[s..] in order: there are none exactly when no
      byte remains, the first starts at s, each starts where the previous
      ended, and nothing but empty spans follows the last. */
  lemma FramesTile(spans: seq<seq<byte>>, s: nat, maxiov: nat)
    requires s <= |spans| && ValidSpans(spans) && maxiov >= 2
    ensures var fs := Frames(spans, s, maxiov);
      && (|fs| == 0 <==> Flatten(spans[s..]) == [])
      && (|fs| > 0 ==> fs[0].start == s && Flatten(spans[fs[|fs| - 1].end..]) == [])
      && (forall k :: 0 <= k < |fs| - 1 ==> fs[k].end == fs[k + 1].start)
  {
    FramesEnds(spans, s, maxiov);
    FramesContiguous(spans, s, maxiov);
  }

  /** There are no fragments exactly when no byte remains; the first starts
      at s, and only empty spans follow the last. */
  lemma {:induction false} FramesEnds(spans: seq<seq<byte>>, s: nat, maxiov: nat)
    requires s <= |spans| && ValidSpans(spans) && maxiov >= 2
    ensures var fs := Frames(spans, s, maxiov);
      && (|fs| == 0 <==> Flatten(spans[s..]) == [])
      && (|fs| > 0 ==> fs[0].start == s && Flatten(spans[fs[|fs| - 1].end..]) == [])
    decreases |spans| - s
  {
    if Flatten(spans[s..]) != [] {
      FramesUnfold(spans, s, maxiov);
      var e := FragEnd(spans, s, s, maxiov);
      var fs, rest := Frames(spans, s, maxiov), Frames(spans, e, maxiov);
      FramesEnds(spans, e, maxiov);
      if rest != [] {
        assert fs[|fs| - 1] == rest[|rest| - 1];
      }
    }
  }

  /** Each fragment starts where the previous one ended. */
  lemma {:induction false} FramesContiguous(spans: seq<seq<byte>>, s: nat, maxiov: nat)
    requires s <= |spans| && ValidSpans(spans) && maxiov >= 2
    ensures var fs := Frames(spans, s, maxiov);
      forall k :: 0 <= k < |fs| - 1 ==> fs[k].end == fs[k + 1].start
    decreases |spans| - s
  {
    if Flatten(spans[s..]) != [] {
      FramesUnfold(spans, s, maxiov);
      var e := FragEnd(spans, s, s, maxiov);
      var fs, rest := Frames(spans, s, maxiov), Frames(spans, e, maxiov);
      FramesContiguous(spans, e, maxiov);
      FramesEnds(spans, e, maxiov);
      forall k | 1 <= k < |fs| ensures fs[k] == rest[k - 1] { }
    }
  }

  /** Bit 31 goes to the fragment that reaches the final span, and a fragment
      that stops early does so because the next span would not fit: it is
      deferred whole, never split. */
  lemma FramesMarks(spans: seq<seq<byte>>, s: nat, maxiov: nat)
    requires s <= |spans| && ValidSpans(spans) && maxiov >= 2
    ensures var fs := Frames(spans, s, maxiov);
      && (forall k :: 0 <= k < |fs| ==> (fs[k].last <==> fs[k].end == |spans|))
      && (forall k :: 0 <= k < |fs| && fs[k].end < |spans| ==>
            fs[k].end - fs[k].start + 1 == maxiov
            || |Payload(spans, fs[k])| + |spans[fs[k].end]| >= LastFrag)
  {
    FramesLastFlag(spans, s, maxiov);
    FramesDeferral(spans, s, maxiov);
  }

  lemma {:induction false} FramesLastFlag(spans: seq<seq<byte>>, s: nat, maxiov: nat)
    requires s <= |spans| && ValidSpans(spans) && maxiov >= 2
    ensures var fs := Frames(spans, s, maxiov);
      forall k :: 0 <= k < |fs| ==> (fs[k].last <==> fs[k].end == |spans|)
    decreases |spans| - s
  {
    if Flatten(spans[s..]) != [] {
      FramesUnfold(spans, s, maxiov);
      var e := FragEnd(spans, s, s, maxiov);
      var fs, rest := Frames(spans, s, maxiov), Frames(spans, e, maxiov);
      FramesLastFlag(spans, e, maxiov);
      forall k | 1 <= k < |fs| ensures fs[k] == rest[k - 1] { }
    }
  }

  lemma {:induction false} FramesDeferral(spans: seq<seq<byte>>, s: nat, maxiov: nat)
    requires s <= |spans| && ValidSpans(spans) && maxiov >= 2
    ensures var fs := Frames(spans, s, maxiov);
      forall k :: 0 <= k < |fs| && fs[k].end < |spans| ==>
        fs[k].end - fs[k].start + 1 == maxiov
        || |Payload(spans, fs[k])| + |spans[fs[k].end]| >= LastFrag
    decreases |spans| - s
  {
    if Flatten(spans[s..]) != [] {
      FramesUnfold(spans, s, maxiov);
      var e := FragEnd(spans, s, s, maxiov);
      var fs, rest := Frames(spans, s, maxiov), Frames(spans, e, maxiov);
      FramesDeferral(spans, e, maxiov);
      forall k | 1 <= k < |fs| ensures fs[k] == rest[k - 1] { }
    }
  }

  /** The fragments tile spans[s..] in order: each is emittable in one writev,
      each starts where the previous ended, nothing but empty spans follows the
      last, bit 31 goes to the one that reaches the final span, and a fragment
      that stops early does so because the next span would not fit (it is
      deferred whole, never split). */
  lemma FramesShape(spans: seq<seq<byte>>, s: nat, maxiov: nat)
    requires s <= |spans| && ValidSpans(spans) && maxiov >= 2
    ensures var fs := Frames(spans, s, maxiov);
      && (|fs| == 0 <==> Flatten(spans[s..]) == [])
      && (|fs| > 0 ==> fs[0].start == s && Flatten(spans[fs[|fs| - 1].end..]) == [])
      && AllOk(spans, maxiov, fs)
      && (forall k :: 0 <= k < |fs| - 1 ==> fs[k].end == fs[k + 1].start)
      && (forall k :: 0 <= k < |fs| ==> (fs[k].last <==> fs[k].end == |spans|))
      && (forall k :: 0 <= k < |fs| && fs[k].end < |spans| ==>
            fs[k].end - fs[k].start + 1 == maxiov
            || |Payload(spans, fs[k])| + |spans[fs[k].end]| >= LastFrag)
  {
    FramesTile(spans, s, maxiov);
    FramesMarks(spans, s, maxiov);
  }

  function FragBytes(spans: seq<seq<byte>>, f: Frag): (b: seq<byte>)
    requires f.start <= f.end <= |spans| && |Payload(spans, f)| < LastFrag
  {
    Header(|Payload(spans, f)|, f.last) + Payload(spans, f)
  }

  predicate AllOk(spans: seq<seq<byte>>, maxiov: nat, fs: seq<Frag>)
  {
    forall k :: 0 <= k < |fs| ==> FragOk(spans, maxiov, fs[k])
  }

  /** The bytes of a list of fragments, each header followed by its payload. */
  function Encode(spans: seq<seq<byte>>, maxiov: nat, fs: seq<Frag>): (w: seq<byte>)
    requires AllOk(spans, maxiov, fs)
  {
    if fs == [] then [] else FragBytes(spans, fs[0]) + Encode(spans, maxiov, fs[1..])
  }

  /** The bytes the writer puts on the wire for spans[s..] when every writev
      completes. */
  function WireFrom(spans: seq<seq<byte>>, s: nat, maxiov: nat): seq<byte>
    requires s <= |spans| && ValidSpans(spans) && maxiov >= 2
  {
    Encode(spans, maxiov, Frames(spans, s, maxiov))
  }

  /** One step of WireFrom: the first fragment's bytes, then the rest. */
  lemma WireFromUnfold(spans: seq<seq<byte>>, s: nat, maxiov: nat)
    requires s <= |spans| && ValidSpans(spans) && maxiov >= 2
    requires Flatten(spans[s..]) != []
    ensures s < |spans| && spans[s..s] == []
    ensures var e := FragEnd(spans, s, s, maxiov);
      WireFrom(spans, s, maxiov)
      == Header(|Flatten(spans[s..e])|, e == |spans|) + Flatten(spans[s..e]) + WireFrom(spans, e, maxiov)
  {
    assert spans[s..s] == [];
    var fs := Frames(spans, s, maxiov);
    assert fs[1..] == Frames(spans, fs[0].end, maxiov);
  }

  lemma WireFromEmpty(spans: seq<seq<byte>>, s: nat, maxiov: nat)
    requires s <= |spans| && ValidSpans(spans) && maxiov >= 2
    requires Flatten(spans[s..]) == []
    ensures WireFrom(spans, s, maxiov) == []
  {
  }

  function Payloads(spans: seq<seq<byte>>, fs: seq<Frag>): (ps: seq<seq<byte>>)
    requires forall k :: 0 <= k < |fs| ==> fs[k].start <= fs[k].end <= |spans|
    ensures |ps| == |fs|
    ensures forall k :: 0 <= k < |fs| ==> ps[k] == Payload(spans, fs[k])
  {
    seq(|fs|, k requires 0 <= k < |fs| => Payload(spans, fs[k]))
  }

  /** Concatenating the payloads of all fragments gives the message's bytes. */
  lemma {:induction false} FramesCoverMessage(spans: seq<seq<byte>>, s: nat, maxiov: nat)
    requires s <= |spans| && ValidSpans(spans) && maxiov >= 2
    ensures Flatten(Payloads(spans, Frames(spans, s, maxiov))) == Flatten(spans[s..])
    decreases |spans| - s
  {
    var fs := Frames(spans, s, maxiov);
    if fs != [] {
      var e := fs[0].end;
      assert fs[1..] == Frames(spans, e, maxiov);
      FramesCoverMessage(spans, e, maxiov);
      var ps := Payloads(spans, fs);
      assert ps[1..] == Payloads(spans, fs[1..]);
      FlattenSplit(spans, s, e, |spans|);
      assert spans[s..|spans|] == spans[s..] && spans[e..|spans|] == spans[e..];
    }
  }

  function TotalLength(spans: seq<seq<byte>>): nat
  {
    |Flatten(spans)|
  }

  /** The wire carries the message's bytes plus four header bytes per fragment. */
  lemma {:induction false} WireLength(spans: seq<seq<byte>>, s: nat, maxiov: nat)
    requires s <= |spans| && ValidSpans(spans) && maxiov >= 2
    ensures |WireFrom(spans, s, maxiov)| == |Flatten(spans[s..])| + 4 * |Frames(spans, s, maxiov)|
    decreases |spans| - s
  {
    if Flatten(spans[s..]) != [] {
      WireFromUnfold(spans, s, maxiov);
      var e := FragEnd(spans, s, s, maxiov);
      WireLength(spans, e, maxiov);
      FlattenSplit(spans, s, e, |spans|);
      assert spans[s..|spans|] == spans[s..] && spans[e..|spans|] == spans[e..];
    }
  }

  /** If the bytes after span e are all gone, the final span is among spans[..e]
      or is empty. */
  lemma {:induction false} EmptyTail(spans: seq<seq<byte>>, e: nat)
    requires e < |spans| && Flatten(spans[e..]) == []
    ensures spans[|spans| - 1] == []
  {
    FlattenSplit(spans, e, |spans| - 1, |spans|);
    assert spans[e..|spans|] == spans[e..];
    FlattenExtend(spans, |spans| - 1, |spans| - 1);
    assert spans[|spans| - 1..|spans| - 1] == [];
  }

  /** Only the final fragment's header carries bit 31, and when the message's
      final span is non-empty the final header does carry it. */
  lemma LastFlagOnlyOnFinal(spans: seq<seq<byte>>, maxiov: nat)
    requires ValidSpans(spans) && maxiov >= 2
    ensures var fs := Frames(spans, 0, maxiov);
      && (forall k :: 0 <= k < |fs| - 1 ==> !fs[k].last)
      && (|fs| > 0 && spans[|spans| - 1] != [] ==> fs[|fs| - 1].last)
  {
    var fs := Frames(spans, 0, maxiov);
    FramesShape(spans, 0, maxiov);
    forall k | 0 <= k < |fs| - 1 ensures !fs[k].last {
      assert FragOk(spans, maxiov, fs[k + 1]);
    }
    if |fs| > 0 && spans[|spans| - 1] != [] {
      var e := fs[|fs| - 1].end;
      if e < |spans| {
        EmptyTail(spans, e);
      }
    }
  }

  /** A reader of record-marked bytes: the payload of one whole record, or
      None when the bytes are not exactly one record. */
  function Deframe(wire: seq<byte>): (r: Option<seq<byte>>)
    decreases |wire|
  {
    if |wire| < 4 then None
    else
      var h := FromBigEndian32(wire[..4]);
      var len := h % LastFrag;
      if |wire| - 4 < len then None
      else if h >= LastFrag then
        (if |wire| == 4 + len then Some(wire[4..4 + len]) else None)
      else
        match Deframe(wire[4 + len..])
        case None => None
        case Some(rest) => Some(wire[4..4 + len] + rest)
  }

  /** Fragments that tile spans[s..] whole, with bit 31 on the final one only. */
  predicate Tiles(spans: seq<seq<byte>>, maxiov: nat, fs: seq<Frag>, s: nat)
  {
    && |fs| > 0
    && fs[0].start == s
    && AllOk(spans, maxiov, fs)
    && (forall k :: 0 <= k < |fs| - 1 ==> fs[k].end == fs[k + 1].start)
    && Flatten(spans[fs[|fs| - 1].end..]) == []
    && (forall k :: 0 <= k < |fs| ==> (fs[k].last <==> k == |fs| - 1))
  }

  /** Reading back a tiling gives exactly the bytes it tiles. */
  lemma {:induction false} DeframeEncode(spans: seq<seq<byte>>, maxiov: nat, fs: seq<Frag>, s: nat)
    requires Tiles(spans, maxiov, fs, s)
    ensures Deframe(Encode(spans, maxiov, fs)) == Some(Flatten(spans[s..]))
    decreases |fs|
  {
    var f := fs[0];
    var p := Payload(spans, f);
    var hd := Header(|p|, f.last);
    var rest := Encode(spans, maxiov, fs[1..]);
    var w := Encode(spans, maxiov, fs);
    assert w == hd + p + rest;
    assert w[..4] == hd;
    assert w[4..4 + |p|] == p;
    FlattenSplit(spans, s, f.end, |spans|);
    assert spans[s..|spans|] == spans[s..] && spans[f.end..|spans|] == spans[f.end..];
    if |fs| == 1 {
      assert rest == [];
      assert Flatten(spans[f.end..]) == [];
      assert w == hd + p;
      assert FromBigEndian32(w[..4]) >= LastFrag;
      assert FromBigEndian32(w[..4]) % LastFrag == |p|;
      assert Deframe(w) == Some(w[4..4 + |p|]);
      assert Flatten(spans[s..]) == p + [] == p;
    } else {
      assert w[4 + |p|..] == rest;
      var fs' := fs[1..];
      assert Tiles(spans, maxiov, fs', f.end) by {
        forall k | 0 <= k < |fs'| ensures (fs'[k].last <==> k == |fs'| - 1) {
          assert fs'[k] == fs[k + 1];
        }
      }
      DeframeEncode(spans, maxiov, fs', f.end);
    }
  }

  /** Round trip: when the message is not empty and its final span is not
      empty, reading the wire back yields exactly the message's bytes. */
  lemma DeframeWire(spans: seq<seq<byte>>, maxiov: nat)
    requires ValidSpans(spans) && maxiov >= 2
    requires Flatten(spans) != [] && spans[|spans| - 1] != []
    ensures Deframe(WireFrom(spans, 0, maxiov)) == Some(Flatten(spans))
  {
    assert spans[0..] == spans;
    var fs := Frames(spans, 0, maxiov);
    FramesShape(spans, 0, maxiov);
    LastFlagOnlyOnFinal(spans, maxiov);
    assert Tiles(spans, maxiov, fs, 0);
    DeframeEncode(spans, maxiov, fs, 0);
  }

  /** As written, a message whose trailing spans are empty and fall after a
      fragment boundary is never given a last fragment: with one vector slot
      per span, the spans [[7], []] go out as a single non-final fragment and
      the record is left open. */
  lemma TrailingEmptySpanLeavesRecordOpen()
    ensures var spans := [[7 as byte], []];
      && Frames(spans, 0, 2) == [Frag(0, 1, false)]
      && WireFrom(spans, 0, 2) == [0, 0, 0, 1, 7]
      && Deframe(WireFrom(spans, 0, 2)) == None
  {
    TrailingEmptyFrames();
    TrailingEmptyWire();
    UnclosedRecord();
  }

  lemma TrailingEmptyFrames()
    ensures Frames([[7 as byte], []], 0, 2) == [Frag(0, 1, false)]
  {
    var spans: seq<seq<byte>> := [[7 as byte], []];
    assert spans[0..] == spans && spans[0..0] == [] && spans[0..1] == [[7]];
    FlattenSingle([7]);
    assert spans[1..] == [[]] && Flatten([[]]) == [] by { FlattenSingle([]); }
    assert FragEnd(spans, 0, 1, 2) == 1;
    assert FragEnd(spans, 0, 0, 2) == 1;
    assert Frames(spans, 1, 2) == [];
  }

  lemma TrailingEmptyWire()
    ensures WireFrom([[7 as byte], []], 0, 2) == [0, 0, 0, 1, 7]
  {
    var spans: seq<seq<byte>> := [[7 as byte], []];
    TrailingEmptyFrames();
    var f := Frag(0, 1, false);
    assert spans[0..1] == [[7]];
    FlattenSingle([7]);
    assert Payload(spans, f) == [7];
    assert Header(1, false) == [0, 0, 0, 1];
    assert [f][1..] == [];
    assert Encode(spans, 2, [f]) == FragBytes(spans, f) + Encode(spans, 2, []);
  }

  lemma UnclosedRecord()
    ensures Deframe([0, 0, 0, 1, 7]) == None
  {
    var w: seq<byte> := [0, 0, 0, 1, 7];
    assert w[..4] == [0, 0, 0, 1] && w[5..] == [];
  }

  /** The evidently intended marking: bit 31 on the final fragment, however
      many empty spans follow its last byte. */
  function MarkFinal(fs: seq<Frag>): (r: seq<Frag>)
    ensures |r| == |fs|
    ensures forall k :: 0 <= k < |fs| ==>
              r[k].start == fs[k].start && r[k].end == fs[k].end && (r[k].last <==> k == |fs| - 1)
  {
    seq(|fs|, k requires 0 <= k < |fs| => fs[k].(last := k == |fs| - 1))
  }

  /** The corrected writer's bytes: the same fragments, marked by position. */
  function CorrectedWire(spans: seq<seq<byte>>, maxiov: nat): seq<byte>
    requires ValidSpans(spans) && maxiov >= 2
  {
    var fs := MarkFinal(Frames(spans, 0, maxiov));
    assert forall k :: 0 <= k < |fs| ==> Payload(spans, fs[k]) == Payload(spans, Frames(spans, 0, maxiov)[k]);
    Encode(spans, maxiov, fs)
  }

  /** With the corrected marking every non-empty message reads back exactly,
      whatever its final span. */
  lemma CorrectedRoundTrip(spans: seq<seq<byte>>, maxiov: nat)
    requires ValidSpans(spans) && maxiov >= 2
    requires Flatten(spans) != []
    ensures Deframe(CorrectedWire(spans, maxiov)) == Some(Flatten(spans))
  {
    MarkFinalTiles(spans, maxiov);
    DeframeEncode(spans, maxiov, MarkFinal(Frames(spans, 0, maxiov)), 0);
  }

  /** The writer's fragments, with bit 31 moved to the last one, tile a
      non-empty message whole. */
  lemma MarkFinalTiles(spans: seq<seq<byte>>, maxiov: nat)
    requires ValidSpans(spans) && maxiov >= 2
    requires Flatten(spans) != []
    ensures Tiles(spans, maxiov, MarkFinal(Frames(spans, 0, maxiov)), 0)
  {
    assert spans[0..] == spans;
    var fs0 := Frames(spans, 0, maxiov);
    FramesTile(spans, 0, maxiov);
    var fs := MarkFinal(fs0);
    assert forall k :: 0 <= k < |fs| ==> Payload(spans, fs[k]) == Payload(spans, fs0[k]);
    assert fs[|fs| - 1].end == fs0[|fs0| - 1].end;
  }
}
