/** The vectored record writer (svc_ioq_flushv): it lays a reply's memory
    spans out in an iovec array behind a reserved header slot, cuts them into
    fragments, and issues one writev per fragment, resuming at the first
    unwritten byte after a short write. The socket is an oracle: the k-th
    writev returns -1 when oracle[k] is negative and otherwise accepts
    min(oracle[k], expected) bytes. */
module Flush {
  import opened Common
  import opened RecordMarking

  /** How one flush ends: every byte written, a failed writev (the
      connection is then marked dead), or the oracle ran out of answers. */
  datatype Outcome = Flushed | Died | CutOff

  /** The value writev returns when asked to write `expected` bytes. */
  function WritevResult(o: int, expected: nat): (r: int)
    ensures r == -1 || 0 <= r <= expected
    ensures r < 0 <==> o < 0
    ensures o >= expected ==> r == expected
  {
    if o < 0 then -1 else Min(o, expected)
  }

  lemma FlattenCons(xs: seq<seq<byte>>)
    requires |xs| > 0
    ensures Flatten(xs) == xs[0] + Flatten(xs[1..])
  {
  }

  /** One fully written slot of a short writev: skipping slot t keeps the
      bookkeeping of the bytes written so far and of those still pending. */
  lemma SkipSlot(xs: seq<seq<byte>>, w: nat, t: nat, e: nat, result: nat, left: nat)
    requires w <= t < e <= |xs| && |xs[t]| <= left && result <= |Flatten(xs[w..e])|
    requires |Flatten(xs[w..t])| + left == result
    requires left < |Flatten(xs[t..e])|
    requires Flatten(xs[w..e])[result..] == Flatten(xs[t..e])[left..]
    ensures t + 1 < e
    ensures |Flatten(xs[w..t + 1])| + (left - |xs[t]|) == result
    ensures left - |xs[t]| < |Flatten(xs[t + 1..e])|
    ensures Flatten(xs[w..e])[result..] == Flatten(xs[t + 1..e])[left - |xs[t]|..]
  {
    FlattenCons(xs[t..e]);
    assert xs[t..e][1..] == xs[t + 1..e];
    FlattenExtend(xs, w, t);
    var rest := Flatten(xs[t + 1..e]);
    assert (xs[t] + rest)[left..] == rest[left - |xs[t]|..];
  }

  /** Cutting the first `left` bytes off slot t cuts them off the window. */
  lemma TrimSlot(xs: seq<seq<byte>>, t: nat, e: nat, left: nat)
    requires t < e <= |xs| && left < |xs[t]|
    ensures Flatten([xs[t][left..]] + xs[t + 1..e]) == Flatten(xs[t..e])[left..]
  {
    FlattenCons(xs[t..e]);
    assert xs[t..e][1..] == xs[t + 1..e];
    FlattenCons([xs[t][left..]] + xs[t + 1..e]);
    assert ([xs[t][left..]] + xs[t + 1..e])[1..] == xs[t + 1..e];
  }

  /** The recovery after a short writev: the window iov[w..w+iw] had only its
      first `result` bytes written. Fully written slots are skipped, the slot
      that straddles the boundary has its base advanced and its length cut by
      the bytes of it that were written, and the window now holds exactly the
      unwritten bytes. */
  method SkipWritten(iov: array<seq<byte>>, w: nat, iw: nat, result: nat) returns (w': nat, iw': nat)
    requires w + iw <= iov.Length
    requires result < |Flatten(iov[w..w + iw])|
    modifies iov
    ensures w <= w' && w' + iw' == w + iw && iw' > 0
    ensures |Flatten(old(iov[w..w']))| <= result
    ensures var leftover := result - |Flatten(old(iov[w..w']))|;
      leftover < |old(iov[w'])| && iov[w'] == old(iov[w'])[leftover..]
    ensures forall k :: 0 <= k < iov.Length && k != w' ==> iov[k] == old(iov[k])
    ensures Flatten(iov[w'..w' + iw']) == old(Flatten(iov[w..w + iw]))[result..]
  {
    ghost var xs := iov[..];
    var e := w + iw;
    var t, left := FindStraddled(iov, w, e, result);
    iov[t] := iov[t][left..];
    w', iw' := t, e - t;
    SkipDone(xs, w, t, e, result, left);
    assert iov[..] == xs[t := xs[t][left..]] && iov[t..e] == iov[..][t..e];
  }

  /** The skipping loop of a short writev: slot t is the first one that was
      not fully written, and `left` bytes of it were. */
  method FindStraddled(iov: array<seq<byte>>, w: nat, e: nat, result: nat) returns (t: nat, left: nat)
    requires w <= e <= iov.Length
    requires result < |Flatten(iov[w..e])|
    ensures w <= t < e && left < |iov[t]|
    ensures |Flatten(iov[w..t])| + left == result
    ensures left <= |Flatten(iov[t..e])|
    ensures Flatten(iov[w..e])[result..] == Flatten(iov[t..e])[left..]
  {
    ghost var xs := iov[..];
    assert xs[w..w] == [] && xs[w..e] == iov[w..e];
    t, left := w, result;
    while |iov[t]| <= left
      invariant w <= t < e
      invariant |Flatten(xs[w..t])| + left == result
      invariant left < |Flatten(xs[t..e])|
      invariant Flatten(xs[w..e])[result..] == Flatten(xs[t..e])[left..]
      decreases e - t
    {
      SkipSlot(xs, w, t, e, result, left);
      left := left - |iov[t]|;
      t := t + 1;
    }
    assert xs[w..t] == iov[w..t] && xs[t..e] == iov[t..e];
  }

  /** After the last skipped slot, the trimmed window is what was unwritten. */
  lemma SkipDone(xs: seq<seq<byte>>, w: nat, t: nat, e: nat, result: nat, left: nat)
    requires w <= t < e <= |xs| && left < |xs[t]|
    requires result <= |Flatten(xs[w..e])| && left <= |Flatten(xs[t..e])|
    requires Flatten(xs[w..e])[result..] == Flatten(xs[t..e])[left..]
    ensures Flatten(xs[t := xs[t][left..]][t..e]) == Flatten(xs[w..e])[result..]
  {
    TrimSlot(xs, t, e, left);
    assert xs[t := xs[t][left..]][t..e] == [xs[t][left..]] + xs[t + 1..e];
  }

  /** The span-gathering loop of a new fragment: whole spans are taken from
      slot w+1 on while a vector slot is left (the header takes one) and the
      payload stays below 2^31; a span that would reach 2^31 is left for the
      next fragment. iw counts the slots used, header included. */
  method GatherSpans(iov: array<seq<byte>>, spans: seq<seq<byte>>, w: nat, maxiov: nat)
    returns (iw: nat, fbytes: nat)
    requires ValidSpans(spans) && maxiov >= 2
    requires iov.Length == |spans| + 1 && w < |spans|
    requires forall j :: w < j <= |spans| ==> iov[j] == spans[j - 1]
    ensures spans[w..w] == [] && w + iw - 1 == FragEnd(spans, w, w, maxiov)
    ensures fbytes == |Flatten(spans[w..w + iw - 1])|
  {
    var n := |spans|;
    assert spans[w..w] == [];
    ghost var e := FragEnd(spans, w, w, maxiov);
    fbytes, iw := 0, 1;
    while w + iw < n + 1 && iw < maxiov
      invariant 1 <= iw && w + iw <= n + 1 && iw <= maxiov
      invariant fbytes == |Flatten(spans[w..w + iw - 1])| < LastFrag
      invariant FragEnd(spans, w, w + iw - 1, maxiov) == e
      decreases n + 1 - (w + iw)
    {
      assert iov[w + iw] == spans[w + iw - 1];
      fbytes := fbytes + |iov[w + iw]|;
      if fbytes >= LastFrag {
        fbytes := fbytes - |iov[w + iw]|;
        break;
      }
      FlattenExtend(spans, w, w + iw - 1);
      iw := iw + 1;
    }
  }

  /** The entry of a lookup table; see WireTable. */
  function At<T>(table: seq<T>, i: nat): T
    requires i < |table|
  {
    table[i]
  }

  /** table[i] is the wire encoding of spans[i..]. The entries are tied to
      WireFrom only through At, so that reasoning about one step of the writer
      looks up the suffixes it needs instead of unfolding their encodings. */
  ghost predicate WireTable(spans: seq<seq<byte>>, maxiov: nat, table: seq<seq<byte>>)
    requires ValidSpans(spans) && maxiov >= 2
  {
    && |table| == |spans| + 1
    && forall i: nat {:trigger At(table, i)} :: i <= |spans| ==> At(table, i) == WireFrom(spans, i, maxiov)
  }

  lemma MakeWireTable(spans: seq<seq<byte>>, maxiov: nat) returns (table: seq<seq<byte>>)
    requires ValidSpans(spans) && maxiov >= 2
    ensures WireTable(spans, maxiov, table)
  {
    table := seq(|spans| + 1, i requires 0 <= i <= |spans| => WireFrom(spans, i, maxiov));
  }

  /** counts[i] is the number of fragments the writer cuts spans[i..] into. */
  ghost predicate CountTable(spans: seq<seq<byte>>, maxiov: nat, counts: seq<nat>)
    requires ValidSpans(spans) && maxiov >= 2
  {
    && |counts| == |spans| + 1
    && forall i: nat {:trigger At(counts, i)} :: i <= |spans| ==> At(counts, i) == |Frames(spans, i, maxiov)|
  }

  lemma MakeCountTable(spans: seq<seq<byte>>, maxiov: nat) returns (counts: seq<nat>)
    requires ValidSpans(spans) && maxiov >= 2
    ensures CountTable(spans, maxiov, counts)
  {
    counts := seq(|spans| + 1, i requires 0 <= i <= |spans| => |Frames(spans, i, maxiov)|);
  }

  /** Bytes remain from span i on exactly when at least one fragment does,
      and a fragment that ends at span e leaves one fragment fewer. */
  lemma FragmentCount(spans: seq<seq<byte>>, maxiov: nat, counts: seq<nat>, w: nat, e: nat)
    requires ValidSpans(spans) && maxiov >= 2 && CountTable(spans, maxiov, counts)
    requires w < |spans| && spans[w..w] == [] && e == FragEnd(spans, w, w, maxiov)
    requires Flatten(spans[w..]) != []
    ensures counts[w] == counts[e] + 1
  {
    assert At(counts, w) == |Frames(spans, w, maxiov)| && At(counts, e) == |Frames(spans, e, maxiov)|;
  }

  lemma CountPositive(spans: seq<seq<byte>>, maxiov: nat, counts: seq<nat>, i: nat)
    requires ValidSpans(spans) && maxiov >= 2 && CountTable(spans, maxiov, counts)
    requires i <= |spans|
    ensures counts[i] > 0 <==> Flatten(spans[i..]) != []
  {
    FramesShape(spans, i, maxiov);
    assert At(counts, i) == |Frames(spans, i, maxiov)|;
  }

  /** The window of a fragment that reaches span e: its header, then its
      spans. Its bytes are the fragment's frame on the wire, and what follows
      them is the encoding of the spans from e on. */
  lemma FragmentWindow(win: seq<seq<byte>>, spans: seq<seq<byte>>, w: nat, e: nat, maxiov: nat,
                       table: seq<seq<byte>>)
    requires ValidSpans(spans) && maxiov >= 2 && WireTable(spans, maxiov, table)
    requires w < |spans| && spans[w..w] == [] && e == FragEnd(spans, w, w, maxiov)
    requires win == [Header(|Flatten(spans[w..e])|, e == |spans|)] + spans[w..e]
    ensures Flatten(win) == Header(|Flatten(spans[w..e])|, e == |spans|) + Flatten(spans[w..e])
    ensures Flatten(spans[w..]) != [] ==>
      && Flatten(win) + table[e] == table[w]
      && |Flatten(win)| + |Flatten(spans[e..])| == 4 + |Flatten(spans[w..])|
  {
    FlattenCons(win);
    assert win[1..] == spans[w..e];
    if Flatten(spans[w..]) != [] {
      WireFromUnfold(spans, w, maxiov);
      assert At(table, w) == WireFrom(spans, w, maxiov) && At(table, e) == WireFrom(spans, e, maxiov);
      FlattenSplit(spans, w, e, |spans|);
      assert spans[w..|spans|] == spans[w..] && spans[e..|spans|] == spans[e..];
    }
  }

  /** The start of a fragment (the header step of svc_ioq_flushv): after the
      spans are gathered, the header, whose length excludes its own four bytes
      and which carries bit 31 when the fragment reaches the final span, goes
      into slot w. The window iov[w..w+iw] then holds exactly the fragment's
      bytes, and fbytes counts them. */
  method StartFragment(iov: array<seq<byte>>, spans: seq<seq<byte>>, w: nat, maxiov: nat)
    returns (iw: nat, fbytes: nat)
    requires ValidSpans(spans) && maxiov >= 2
    requires iov.Length == |spans| + 1 && w < |spans|
    requires forall j :: w < j <= |spans| ==> iov[j] == spans[j - 1]
    modifies iov
    ensures spans[w..w] == [] && w + iw - 1 == FragEnd(spans, w, w, maxiov)
    ensures 2 <= iw <= maxiov
    ensures fbytes == 4 + |Flatten(spans[w..w + iw - 1])| && fbytes - 4 < LastFrag
    ensures iov[w..w + iw] == [Header(fbytes - 4, w + iw - 1 == |spans|)] + spans[w..w + iw - 1]
    ensures forall j :: 0 <= j < iov.Length && j != w ==> iov[j] == old(iov[j])
  {
    iw, fbytes := GatherSpans(iov, spans, w, maxiov);
    var last := !(w + iw < |spans| + 1);
    iov[w] := Header(fbytes, last);
    assert iov[w..w + iw] == [iov[w]] + spans[w..w + iw - 1];
    fbytes := fbytes + 4;
  }

  /** The iovec array of a reply: slot 0 reserved for the first fragment
      header, slot j holding span j-1; `remaining` is the message's length. */
  method LayOut(spans: seq<seq<byte>>) returns (iov: array<seq<byte>>, remaining: nat)
    ensures fresh(iov) && iov.Length == |spans| + 1
    ensures forall j :: 1 <= j <= |spans| ==> iov[j] == spans[j - 1]
    ensures remaining == |Flatten(spans)|
  {
    var n := |spans|;
    iov := new seq<byte>[n + 1];
    iov[0] := [];
    remaining := 0;
    var ix := 0;
    while ix < n
      invariant 0 <= ix <= n
      invariant forall j :: 1 <= j <= ix ==> iov[j] == spans[j - 1]
      invariant remaining == |Flatten(spans[..ix])|
    {
      iov[ix + 1] := spans[ix];
      FlattenExtend(spans, 0, ix);
      assert spans[0..ix + 1] == spans[..ix + 1] && spans[0..ix] == spans[..ix];
      remaining := remaining + |spans[ix]|;
      ix := ix + 1;
    }
    assert spans[..n] == spans;
  }

  /** The state between two writev calls of a flush. The window
      iov[w..w+iw] holds the unwritten bytes of the fragment in progress (none
      when iw is 0); nx is the first span not yet gathered, and every slot past
      it still holds its span. What was sent, the window and the wire encoding
      of the spans from nx on (entry nx of the wire table) make up the whole
      wire encoding of the reply (entry 0), and
      `remaining` counts the window's bytes and those of the spans from nx on. */
  ghost predicate Pending(iov: array<seq<byte>>, spans: seq<seq<byte>>, maxiov: nat,
                          w: nat, iw: nat, nx: nat, fbytes: nat, remaining: nat, sent: seq<byte>,
                          table: seq<seq<byte>>)
    requires ValidSpans(spans) && maxiov >= 2
    reads iov
  {
    && WireTable(spans, maxiov, table)
    && iov.Length == |spans| + 1 && w + iw <= |spans| + 1
    && nx == (if iw == 0 then w else w + iw - 1) && nx <= |spans|
    && (forall j :: nx < j <= |spans| ==> iov[j] == spans[j - 1])
    && sent + Flatten(iov[w..w + iw]) + table[nx] == table[0]
    && remaining == |Flatten(iov[w..w + iw])| + |Flatten(spans[nx..])|
    && (iw > 0 ==> fbytes == |Flatten(iov[w..w + iw])| && 0 < fbytes < LastFrag + 4)
    && iw <= maxiov
  }

  /** The header step, taken when no fragment is in progress: the next
      fragment is gathered and its header placed, and `remaining` grows by the
      four header bytes. */
  method BeginFragment(iov: array<seq<byte>>, spans: seq<seq<byte>>, maxiov: nat,
                       w: nat, remaining: nat, ghost sent: seq<byte>, ghost table: seq<seq<byte>>)
    returns (iw: nat, fbytes: nat, remaining': nat, ghost nx: nat)
    requires ValidSpans(spans) && maxiov >= 2
    requires Pending(iov, spans, maxiov, w, 0, w, 0, remaining, sent, table) && remaining > 0
    modifies iov
    ensures iw > 0 && Pending(iov, spans, maxiov, w, iw, nx, fbytes, remaining', sent, table)
    ensures w < |spans| && spans[w..w] == [] && nx == FragEnd(spans, w, w, maxiov) && Flatten(spans[w..]) != []
  {
    assert iov[w..w] == [];
    assert w < |spans| && spans[w..w] == [];
    assert sent + table[w] == table[0] && remaining == |Flatten(spans[w..])|;
    iw, fbytes := StartFragment(iov, spans, w, maxiov);
    remaining' := remaining + 4;
    nx := w + iw - 1;
    PendingOpened(iov, spans, maxiov, w, iw, nx, fbytes, remaining, sent, table);
  }

  /** The state once a fragment's window is laid out at slot w. */
  lemma PendingOpened(iov: array<seq<byte>>, spans: seq<seq<byte>>, maxiov: nat,
                      w: nat, iw: nat, nx: nat, fbytes: nat, remaining: nat, sent: seq<byte>,
                      table: seq<seq<byte>>)
    requires ValidSpans(spans) && maxiov >= 2 && WireTable(spans, maxiov, table)
    requires iov.Length == |spans| + 1 && w < |spans| && spans[w..w] == []
    requires nx == FragEnd(spans, w, w, maxiov) && nx == w + iw - 1 && 2 <= iw <= maxiov
    requires Flatten(spans[w..]) != []
    requires fbytes == 4 + |Flatten(spans[w..nx])| && fbytes - 4 < LastFrag
    requires iov[w..w + iw] == [Header(fbytes - 4, nx == |spans|)] + spans[w..nx]
    requires forall j :: nx < j <= |spans| ==> iov[j] == spans[j - 1]
    requires sent + table[w] == table[0] && remaining == |Flatten(spans[w..])|
    ensures Pending(iov, spans, maxiov, w, iw, nx, fbytes, remaining + 4, sent, table)
  {
    FragmentWindow(iov[w..w + iw], spans, w, nx, maxiov, table);
  }

  /** A writev that took the whole window ends the fragment: the window
      closes at the slot of its last span. */
  lemma FullWrite(iov: array<seq<byte>>, spans: seq<seq<byte>>, maxiov: nat,
                  w: nat, iw: nat, nx: nat, fbytes: nat, remaining: nat, sent: seq<byte>,
                  table: seq<seq<byte>>)
    requires ValidSpans(spans) && maxiov >= 2
    requires iw > 0 && Pending(iov, spans, maxiov, w, iw, nx, fbytes, remaining, sent, table)
    ensures remaining >= fbytes
    ensures Pending(iov, spans, maxiov, w + iw - 1, 0, nx, fbytes, remaining - fbytes,
                    sent + Flatten(iov[w..w + iw]), table)
  {
    assert iov[w + iw - 1..w + iw - 1] == [];
  }

  /** A writev that took `result` bytes of the window and not all of them:
      the window moves to the first unwritten byte. */
  method ShortWrite(iov: array<seq<byte>>, spans: seq<seq<byte>>, maxiov: nat,
                    w: nat, iw: nat, fbytes: nat, remaining: nat, sent: seq<byte>, ghost nx: nat,
                    ghost table: seq<seq<byte>>, result: nat)
    returns (w': nat, iw': nat, fbytes': nat, remaining': nat, sent': seq<byte>)
    requires ValidSpans(spans) && maxiov >= 2
    requires iw > 0 && Pending(iov, spans, maxiov, w, iw, nx, fbytes, remaining, sent, table)
    requires result < fbytes
    modifies iov
    ensures Pending(iov, spans, maxiov, w', iw', nx, fbytes', remaining', sent', table)
    ensures sent' == sent + old(Flatten(iov[w..w + iw]))[..result]
  {
    var window := Flatten(iov[w..w + iw]);
    assert window == window[..result] + window[result..];
    sent' := sent + window[..result];
    remaining' := remaining - result;
    fbytes' := fbytes - result;
    w', iw' := SkipWritten(iov, w, iw, result);
  }

  /** One writev of the window and the bookkeeping after it: a full write
      ends the fragment, a failure ends the flush, and a short write moves the
      window to the first unwritten byte. */
  method WriteWindow(iov: array<seq<byte>>, spans: seq<seq<byte>>, maxiov: nat,
                     w: nat, iw: nat, fbytes: nat, remaining: nat, sent: seq<byte>, ghost nx: nat,
                     ghost table: seq<seq<byte>>, o: int)
    returns (w': nat, iw': nat, fbytes': nat, remaining': nat, sent': seq<byte>, dead: bool)
    requires ValidSpans(spans) && maxiov >= 2
    requires iw > 0 && Pending(iov, spans, maxiov, w, iw, nx, fbytes, remaining, sent, table)
    modifies iov
    ensures dead <==> o < 0
    ensures dead ==> sent' == sent && sent <= table[0]
    ensures !dead ==> Pending(iov, spans, maxiov, w', iw', nx, fbytes', remaining', sent', table)
    ensures o >= fbytes ==> iw' == 0
  {
    var result := WritevResult(o, fbytes);
    w', iw', fbytes', remaining', sent', dead := w, iw, fbytes, remaining, sent, false;
    if result < 0 {
      dead := true;
      PrefixOfSum(sent, Flatten(iov[w..w + iw]), table[nx], table[0]);
    } else if result == fbytes {
      FullWrite(iov, spans, maxiov, w, iw, nx, fbytes, remaining, sent, table);
      w', iw', remaining', sent' := w + iw - 1, 0, remaining - fbytes, sent + Flatten(iov[w..w + iw]);
    } else {
      w', iw', fbytes', remaining', sent' := ShortWrite(iov, spans, maxiov, w, iw, fbytes, remaining, sent, nx, table, result);
    }
  }

  /** One pass of the writev loop: a header step when no fragment is in
      progress, then one writev. A writev that takes at least a whole
      fragment's worth of bytes ends the fragment it began. */
  method Call(iov: array<seq<byte>>, spans: seq<seq<byte>>, maxiov: nat,
              w: nat, iw: nat, fbytes: nat, remaining: nat, sent: seq<byte>, ghost nx: nat,
              ghost table: seq<seq<byte>>, ghost counts: seq<nat>, o: int)
    returns (w': nat, iw': nat, fbytes': nat, remaining': nat, sent': seq<byte>, ghost nx': nat, dead: bool)
    requires ValidSpans(spans) && maxiov >= 2 && CountTable(spans, maxiov, counts)
    requires Pending(iov, spans, maxiov, w, iw, nx, fbytes, remaining, sent, table) && remaining > 0
    modifies iov
    ensures dead <==> o < 0
    ensures dead ==> sent' == sent && sent <= table[0]
    ensures !dead ==> Pending(iov, spans, maxiov, w', iw', nx', fbytes', remaining', sent', table)
    ensures iw == 0 && o >= LastFrag + 4 ==> iw' == 0 && counts[nx] == counts[nx'] + 1
  {
    var iw0, fbytes0, remaining0 := iw, fbytes, remaining;
    nx' := nx;
    if iw == 0 {
      iw0, fbytes0, remaining0, nx' := BeginFragment(iov, spans, maxiov, w, remaining, sent, table);
      FragmentCount(spans, maxiov, counts, w, nx');
    }
    w', iw', fbytes', remaining', sent', dead := WriteWindow(iov, spans, maxiov, w, iw0, fbytes0, remaining0, sent, nx', table, o);
  }

  lemma PrefixOfSum(a: seq<byte>, b: seq<byte>, c: seq<byte>, whole: seq<byte>)
    requires a + b + c == whole
    ensures a <= whole
  {
    assert whole[..|a|] == a;
  }

  /** Once no byte remains past span nx, the rest of the wire is empty. */
  lemma PendingDone(spans: seq<seq<byte>>, maxiov: nat, nx: nat, table: seq<seq<byte>>)
    requires ValidSpans(spans) && maxiov >= 2 && WireTable(spans, maxiov, table)
    requires nx <= |spans| && Flatten(spans[nx..]) == []
    ensures table[nx] == []
  {
    WireFromEmpty(spans, nx, maxiov);
    assert At(table, nx) == WireFrom(spans, nx, maxiov);
  }

  /** What was sent so far is a prefix of the wire. */
  lemma PendingPrefix(iov: array<seq<byte>>, spans: seq<seq<byte>>, maxiov: nat,
                      w: nat, iw: nat, nx: nat, fbytes: nat, remaining: nat, sent: seq<byte>,
                      table: seq<seq<byte>>)
    requires ValidSpans(spans) && maxiov >= 2
    requires Pending(iov, spans, maxiov, w, iw, nx, fbytes, remaining, sent, table)
    ensures sent <= table[0]
  {
    PrefixOfSum(sent, Flatten(iov[w..w + iw]), table[nx], table[0]);
  }

  /** Between fragments, bytes remaining means a fragment remains. */
  lemma PendingLive(iov: array<seq<byte>>, spans: seq<seq<byte>>, maxiov: nat,
                    w: nat, nx: nat, fbytes: nat, remaining: nat, sent: seq<byte>,
                    table: seq<seq<byte>>, counts: seq<nat>)
    requires ValidSpans(spans) && maxiov >= 2 && CountTable(spans, maxiov, counts)
    requires Pending(iov, spans, maxiov, w, 0, nx, fbytes, remaining, sent, table)
    ensures remaining > 0 ==> counts[nx] > 0
  {
    assert iov[w..w] == [];
    CountPositive(spans, maxiov, counts, nx);
  }

  /** When no byte remains, the whole wire was sent and no fragment is left. */
  lemma PendingFinished(iov: array<seq<byte>>, spans: seq<seq<byte>>, maxiov: nat,
                        w: nat, iw: nat, nx: nat, fbytes: nat, sent: seq<byte>,
                        table: seq<seq<byte>>, counts: seq<nat>)
    requires ValidSpans(spans) && maxiov >= 2 && CountTable(spans, maxiov, counts)
    requires Pending(iov, spans, maxiov, w, iw, nx, fbytes, 0, sent, table)
    ensures iw == 0 && sent == table[0] && counts[nx] == 0
  {
    assert iw == 0 && iov[w..w] == [];
    PendingDone(spans, maxiov, nx, table);
    CountPositive(spans, maxiov, counts, nx);
  }

  /** The state before the first writev. */
  lemma PendingStart(iov: array<seq<byte>>, spans: seq<seq<byte>>, maxiov: nat, remaining: nat,
                     table: seq<seq<byte>>)
    requires ValidSpans(spans) && maxiov >= 2
    requires iov.Length == |spans| + 1
    requires forall j :: 1 <= j <= |spans| ==> iov[j] == spans[j - 1]
    requires remaining == |Flatten(spans)|
    requires WireTable(spans, maxiov, table)
    ensures Pending(iov, spans, maxiov, 0, 0, 0, 0, remaining, [], table)
  {
    assert iov[0..0] == [] && spans[0..] == spans;
  }

  /** The writev loop of svc_ioq_flushv over a laid-out iovec array, stated
      against the wire and fragment-count tables of the reply. */
  method Drain(iov: array<seq<byte>>, spans: seq<seq<byte>>, maxiov: nat, oracle: seq<int>,
               remaining: nat, ghost table: seq<seq<byte>>, ghost counts: seq<nat>)
    returns (sent: seq<byte>, outcome: Outcome, calls: nat)
    requires ValidSpans(spans) && maxiov >= 2
    requires Pending(iov, spans, maxiov, 0, 0, 0, 0, remaining, [], table)
    requires CountTable(spans, maxiov, counts)
    modifies iov
    ensures calls <= |oracle|
    ensures sent <= table[0]
    ensures outcome == Flushed ==> sent == table[0]
    ensures outcome == Died <==> calls > 0 && oracle[calls - 1] < 0
    ensures forall k :: 0 <= k < calls - 1 ==> oracle[k] >= 0
    ensures outcome == CutOff ==> calls == |oracle|
    ensures remaining == 0 ==> sent == [] && outcome == Flushed && calls == 0
    ensures (forall k :: 0 <= k < |oracle| ==> oracle[k] >= LastFrag + 4) && |oracle| >= counts[0]
      ==> outcome == Flushed && calls == counts[0]
  {
    ghost var full := (forall k :: 0 <= k < |oracle| ==> oracle[k] >= LastFrag + 4) && |oracle| >= counts[0];
    ghost var remaining0 := remaining;
    var remaining := remaining;
    var w: nat, iw: nat, fbytes: nat := 0, 0, 0;
    ghost var nx: nat := 0;
    sent, calls := [], 0;
    while remaining > 0
      invariant Pending(iov, spans, maxiov, w, iw, nx, fbytes, remaining, sent, table)
      invariant calls <= |oracle|
      invariant forall k :: 0 <= k < calls ==> oracle[k] >= 0
      invariant remaining0 == 0 ==> remaining == 0 && calls == 0 && sent == []
      invariant full ==> iw == 0 && calls + counts[nx] == counts[0] && counts[0] <= |oracle|
      decreases |oracle| - calls
    {
      if full {
        PendingLive(iov, spans, maxiov, w, nx, fbytes, remaining, sent, table, counts);
      }
      if calls == |oracle| {
        outcome := CutOff;
        PendingPrefix(iov, spans, maxiov, w, iw, nx, fbytes, remaining, sent, table);
        return;
      }
      var dead;
      w, iw, fbytes, remaining, sent, nx, dead := Call(iov, spans, maxiov, w, iw, fbytes, remaining, sent, nx, table, counts, oracle[calls]);
      calls := calls + 1;
      if dead {
        outcome := Died;
        return;
      }
    }
    outcome := Flushed;
    PendingFinished(iov, spans, maxiov, w, iw, nx, fbytes, sent, table, counts);
  }

  /** One flush of one reply (svc_ioq_flushv). `sent` is the byte stream the
      socket accepted and `calls` the number of writev calls made: the stream
      is always a prefix of the reply's record-marked encoding, and all of it
      when the flush ends normally; a failed writev ends the flush at once;
      a message with no bytes makes no call; and when every writev takes all
      it is offered, each fragment costs exactly one call. */
  method FlushV(spans: seq<seq<byte>>, maxiov: nat, oracle: seq<int>)
    returns (sent: seq<byte>, outcome: Outcome, calls: nat)
    requires ValidSpans(spans) && maxiov >= 2
    ensures calls <= |oracle|
    ensures sent <= WireFrom(spans, 0, maxiov)
    ensures outcome == Flushed ==> sent == WireFrom(spans, 0, maxiov)
    ensures outcome == Died <==> calls > 0 && oracle[calls - 1] < 0
    ensures forall k :: 0 <= k < calls - 1 ==> oracle[k] >= 0
    ensures outcome == CutOff ==> calls == |oracle|
    ensures Flatten(spans) == [] ==> sent == [] && outcome == Flushed && calls == 0
    ensures (forall k :: 0 <= k < |oracle| ==> oracle[k] >= LastFrag + 4) && |oracle| >= |Frames(spans, 0, maxiov)|
      ==> outcome == Flushed && calls == |Frames(spans, 0, maxiov)|
  {
    var iov, remaining := LayOut(spans);
    ghost var table := MakeWireTable(spans, maxiov);
    ghost var counts := MakeCountTable(spans, maxiov);
    PendingStart(iov, spans, maxiov, remaining, table);
    sent, outcome, calls := Drain(iov, spans, maxiov, oracle, remaining, table, counts);
    assert At(table, 0) == WireFrom(spans, 0, maxiov) && At(counts, 0) == |Frames(spans, 0, maxiov)|;
  }
}
