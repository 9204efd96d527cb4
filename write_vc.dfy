/** write_vc: the output side of a connection's record codec, which writes
    a buffer to the socket until all of it is out, and marks the connection
    dead on a fatal error. The socket's answers are given in advance, one
    per write call; a byte of the buffer is named by its offset, so the
    bytes a run puts on the wire are the offsets it wrote, in order. */
module StreamWrite {
  import opened Common
  import opened StreamConn

  /** What one write returns: a count of bytes (never more than asked), or
      -1 with an errno and the seconds field of the clock as the writer
      would read it next. */
  datatype WriteAnswer = Wrote(n: nat) | WriteFailed(errno: Errno, sec: int)

  datatype WriteVcResult = WriteReturned(ret: int) | StillWriting

  /** The offsets off, off + 1, ..., off + n - 1. */
  function Span(off: int, n: nat): (s: seq<int>)
    ensures |s| == n && forall k :: 0 <= k < n ==> s[k] == off + k
  {
    seq(n, k requires 0 <= k < n => off + k)
  }

  /** Two spans that meet make one. */
  lemma SpanAppend(off: int, i: nat, j: nat)
    ensures Span(off, i) + Span(off + i, j) == Span(off, i + j)
  {
    var s := Span(off, i) + Span(off + i, j);
    assert forall k :: 0 <= k < i + j ==> s[k] == off + k;
  }

  /** A failed write that ends write_vc: any error on a blocking socket,
      an error other than EAGAIN, or EAGAIN two or more seconds after the
      first write began (t0). */
  predicate WriteFatal(nonblock: bool, t0: int, a: WriteAnswer)
  {
    a.WriteFailed? && (a.errno != EAgain || !nonblock || a.sec - t0 >= 2)
  }

  /** write_vc as written, from `cnt` bytes left at offset `off`: the loop
      step `cnt -= i, buf += i` also runs after a tolerated EAGAIN, where i
      is -1. */
  function WriteLoopAsWritten(nonblock: bool, t0: int, len: int, cnt: int, off: int, answers: seq<WriteAnswer>): (r: (WriteVcResult, seq<int>))
    ensures r.0.WriteReturned? ==> r.0.ret == len || r.0.ret == -1
    ensures r.0 == WriteReturned(-1) && len != -1 ==> exists k :: 0 <= k < |answers| && WriteFatal(nonblock, t0, answers[k])
    ensures r.0 == StillWriting ==> cnt > 0
    decreases |answers|
  {
    if cnt <= 0 then (WriteReturned(len), [])
    else if answers == [] then (StillWriting, [])
    else
      var a := answers[0];
      if a.Wrote? then
        var i := Min(a.n, cnt);
        var (res, rest) := WriteLoopAsWritten(nonblock, t0, len, cnt - i, off + i, answers[1..]);
        (res, Span(off, i) + rest)
      else if WriteFatal(nonblock, t0, a) then (WriteReturned(-1), [])
      else WriteLoopAsWritten(nonblock, t0, len, cnt + 1, off - 1, answers[1..])
  }

  /** A failed write that write_vc tolerates: EAGAIN on a non-blocking
      socket less than two seconds after the first write began. */
  predicate Tolerated(nonblock: bool, t0: int, a: WriteAnswer)
  {
    a.WriteFailed? && !WriteFatal(nonblock, t0, a)
  }

  /** write_vc with a tolerated EAGAIN retrying the same bytes, from `cnt`
      bytes left at offset `off`: the result, the offsets written in order,
      and the number of answers used. */
  function WriteLoopRetrying(nonblock: bool, t0: int, len: int, cnt: int, off: int, answers: seq<WriteAnswer>): (r: (WriteVcResult, seq<int>, nat))
    ensures r.2 <= |answers|
    ensures r.0 == StillWriting ==> r.2 == |answers|
    decreases |answers|
  {
    if cnt <= 0 then (WriteReturned(len), [], 0)
    else if answers == [] then (StillWriting, [], 0)
    else
      var a := answers[0];
      if a.Wrote? then
        var i := Min(a.n, cnt);
        var (res, rest, calls) := WriteLoopRetrying(nonblock, t0, len, cnt - i, off + i, answers[1..]);
        (res, Span(off, i) + rest, calls + 1)
      else if WriteFatal(nonblock, t0, a) then (WriteReturned(-1), [], 1)
      else
        var (res, rest, calls) := WriteLoopRetrying(nonblock, t0, len, cnt, off, answers[1..]);
        (res, rest, calls + 1)
  }

  /** Without a tolerated EAGAIN among the answers, write_vc as written and
      the retrying loop agree on the result and on the bytes written. */
  lemma {:induction false} RetryingAgreesAsWritten(nonblock: bool, t0: int, len: int, cnt: int, off: int, answers: seq<WriteAnswer>)
    requires forall k :: 0 <= k < |answers| ==> !Tolerated(nonblock, t0, answers[k])
    ensures var r := WriteLoopRetrying(nonblock, t0, len, cnt, off, answers);
      WriteLoopAsWritten(nonblock, t0, len, cnt, off, answers) == (r.0, r.1)
  {
    if cnt > 0 && answers != [] {
      assert !Tolerated(nonblock, t0, answers[0]);
      forall k | 0 <= k < |answers[1..]|
        ensures !Tolerated(nonblock, t0, answers[1..][k])
      {
        assert answers[1..][k] == answers[k + 1];
      }
      if answers[0].Wrote? {
        var i := Min(answers[0].n, cnt);
        RetryingAgreesAsWritten(nonblock, t0, len, cnt - i, off + i, answers[1..]);
      }
    }
  }

  /** On the inputs of EagainRewindsBuffer, the retrying loop writes each
      byte once, in order. */
  lemma EagainRetried()
    ensures WriteLoopRetrying(true, 0, 2, 2, 0, [Wrote(1), WriteFailed(EAgain, 0), Wrote(2)]) == (WriteReturned(2), [0, 1], 3)
    ensures WriteLoopRetrying(true, 0, 1, 1, 0, [WriteFailed(EAgain, 0), Wrote(2)]) == (WriteReturned(1), [0], 2)
  {
    var answers := [Wrote(1), WriteFailed(EAgain, 0), Wrote(2)];
    assert answers[1..] == [WriteFailed(EAgain, 0), Wrote(2)];
    assert answers[1..][1..] == [Wrote(2)];
    assert [Wrote(2)][1..] == [];
    assert Span(1, 1) + [] == [1] && Span(0, 1) + [] == [0];
    assert WriteLoopRetrying(true, 0, 2, 1, 1, [Wrote(2)]) == (WriteReturned(2), [1], 1);
    assert WriteLoopRetrying(true, 0, 2, 1, 1, [WriteFailed(EAgain, 0), Wrote(2)]) == (WriteReturned(2), [1], 2);
    assert Span(0, 1) + [1] == [0, 1];
    assert WriteLoopRetrying(true, 0, 1, 1, 0, [Wrote(2)]) == (WriteReturned(1), [0], 1);
  }

  /** As written, a tolerated EAGAIN after a partial write sends the last
      byte written again, and the call still reports the whole buffer as
      written; an EAGAIN on the first write makes the next write start one
      byte before the buffer. */
  lemma EagainRewindsBuffer()
    ensures WriteLoopAsWritten(true, 0, 2, 2, 0, [Wrote(1), WriteFailed(EAgain, 0), Wrote(2)]) == (WriteReturned(2), [0, 0, 1])
    ensures WriteLoopAsWritten(true, 0, 1, 1, 0, [WriteFailed(EAgain, 0), Wrote(2)]) == (WriteReturned(1), [-1, 0])
  {
    var answers := [Wrote(1), WriteFailed(EAgain, 0), Wrote(2)];
    assert answers[1..] == [WriteFailed(EAgain, 0), Wrote(2)];
    assert answers[1..][1..] == [Wrote(2)];
    assert [Wrote(2)][1..] == [];
    assert WriteLoopAsWritten(true, 0, 2, 0, 2, []) == (WriteReturned(2), []);
    assert Span(0, 2) + [] == [0, 1] && Span(-1, 2) + [] == [-1, 0];
    assert WriteLoopAsWritten(true, 0, 2, 2, 0, [Wrote(2)]) == (WriteReturned(2), [0, 1]);
    assert WriteLoopAsWritten(true, 0, 2, 1, 1, [WriteFailed(EAgain, 0), Wrote(2)]) == (WriteReturned(2), [0, 1]);
    assert Span(0, 1) + [0, 1] == [0, 0, 1];
    var answers2 := [WriteFailed(EAgain, 0), Wrote(2)];
    assert answers2[1..] == [Wrote(2)];
    assert WriteLoopAsWritten(true, 0, 1, 0, 1, []) == (WriteReturned(1), []);
    assert WriteLoopAsWritten(true, 0, 1, 2, -1, [Wrote(2)]) == (WriteReturned(1), [-1, 0]);
  }

  /** The offsets the retrying loop writes from cnt bytes left at offset
      off run on from off without gap or repeat and never past cnt bytes;
      success returns len after all cnt bytes, and a loop still writing
      has bytes left. */
  lemma {:induction false} RetryingOffsets(nonblock: bool, t0: int, len: nat, cnt: nat, off: int, answers: seq<WriteAnswer>)
    ensures var (res, offs, _) := WriteLoopRetrying(nonblock, t0, len, cnt, off, answers);
      && |offs| <= cnt && offs == Span(off, |offs|)
      && (res.WriteReturned? ==> res.ret == len || res.ret == -1)
      && (res == WriteReturned(len) ==> |offs| == cnt)
      && (res == StillWriting ==> |offs| < cnt)
    decreases |answers|
  {
    if cnt > 0 && answers != [] {
      var a := answers[0];
      if a.Wrote? || !WriteFatal(nonblock, t0, a) {
        var i := if a.Wrote? then Min(a.n, cnt) else 0;
        RetryingOffsets(nonblock, t0, len, cnt - i, off + i, answers[1..]);
        var tail := WriteLoopRetrying(nonblock, t0, len, cnt - i, off + i, answers[1..]);
        SpanAppend(off, i, |tail.1|);
        if a.Wrote? {
          assert WriteLoopRetrying(nonblock, t0, len, cnt, off, answers).1 == Span(off, i) + tail.1;
        } else {
          assert WriteLoopRetrying(nonblock, t0, len, cnt, off, answers).1 == tail.1;
        }
      }
    }
  }

  /** The retrying loop returns -1 only on a fatal last answer, and every
      answer before the last one it uses is not fatal. */
  lemma {:induction false} RetryingFatal(nonblock: bool, t0: int, len: nat, cnt: int, off: int, answers: seq<WriteAnswer>)
    ensures var (res, _, calls) := WriteLoopRetrying(nonblock, t0, len, cnt, off, answers);
      && (forall k :: 0 <= k < calls - 1 ==> !WriteFatal(nonblock, t0, answers[k]))
      && (res == WriteReturned(-1) ==> cnt > 0 && calls > 0 && WriteFatal(nonblock, t0, answers[calls - 1]))
      && (res != WriteReturned(-1) && calls > 0 ==> !WriteFatal(nonblock, t0, answers[calls - 1]))
    decreases |answers|
  {
    if cnt > 0 && answers != [] {
      var a := answers[0];
      if a.Wrote? || !WriteFatal(nonblock, t0, a) {
        var i := if a.Wrote? then Min(a.n, cnt) else 0;
        RetryingFatal(nonblock, t0, len, cnt - i, off + i, answers[1..]);
        var (_, _, calls) := WriteLoopRetrying(nonblock, t0, len, cnt - i, off + i, answers[1..]);
        forall k | 1 <= k <= calls
          ensures answers[k] == answers[1..][k - 1]
        {
        }
      }
    }
  }

  /** The whole run of the retrying loop, seen after k answers have put out
      `offsets` and left `cnt` bytes: what is left of the run is the
      retrying loop from there. */
  ghost predicate ResumesAt(nonblock: bool, t0: int, len: int, answers: seq<WriteAnswer>, cnt: int, offsets: seq<int>, k: nat)
    requires k <= |answers|
  {
    var rest := WriteLoopRetrying(nonblock, t0, len, cnt, len - cnt, answers[k..]);
    WriteLoopRetrying(nonblock, t0, len, len, 0, answers) == (rest.0, offsets + rest.1, k + rest.2)
  }

  /** A written or tolerated answer moves the run on by one answer. */
  lemma ResumeStep(nonblock: bool, t0: int, len: int, answers: seq<WriteAnswer>, cnt: int, offsets: seq<int>, k: nat)
    requires k < |answers| && cnt > 0 && !WriteFatal(nonblock, t0, answers[k])
    requires ResumesAt(nonblock, t0, len, answers, cnt, offsets, k)
    ensures answers[k].Wrote? ==>
      var i := Min(answers[k].n, cnt);
      ResumesAt(nonblock, t0, len, answers, cnt - i, offsets + Span(len - cnt, i), k + 1)
    ensures answers[k].WriteFailed? ==> ResumesAt(nonblock, t0, len, answers, cnt, offsets, k + 1)
  {
    assert answers[k..][0] == answers[k] && answers[k..][1..] == answers[k + 1..];
    if answers[k].Wrote? {
      var i := Min(answers[k].n, cnt);
      var rest := WriteLoopRetrying(nonblock, t0, len, cnt - i, len - cnt + i, answers[k + 1..]);
      assert offsets + (Span(len - cnt, i) + rest.1) == (offsets + Span(len - cnt, i)) + rest.1;
    }
  }

  /** How the run ends: on a fatal answer, when no bytes are left, or when
      the answers run out. */
  lemma ResumeEnd(nonblock: bool, t0: int, len: int, answers: seq<WriteAnswer>, cnt: int, offsets: seq<int>, k: nat)
    requires k <= |answers| && ResumesAt(nonblock, t0, len, answers, cnt, offsets, k)
    ensures cnt > 0 && k < |answers| && WriteFatal(nonblock, t0, answers[k]) ==>
      WriteLoopRetrying(nonblock, t0, len, len, 0, answers) == (WriteReturned(-1), offsets, k + 1)
    ensures cnt <= 0 ==> WriteLoopRetrying(nonblock, t0, len, len, 0, answers) == (WriteReturned(len), offsets, k)
    ensures cnt > 0 && k == |answers| ==> WriteLoopRetrying(nonblock, t0, len, len, 0, answers) == (StillWriting, offsets, k)
  {
    assert offsets + [] == offsets;
    if k < |answers| {
      assert answers[k..][0] == answers[k];
    } else {
      assert answers[k..] == [];
    }
  }

  /** The loop of write_vc, with a tolerated EAGAIN retrying the same
      bytes, on a socket whose non-blocking flag is `nonblock`: the result,
      the offsets written in order and the number of answers used are those
      of WriteLoopRetrying from the whole buffer. */
  method WriteLoop(nonblock: bool, t0: int, len: nat, answers: seq<WriteAnswer>) returns (r: WriteVcResult, offsets: seq<int>, ghost calls: nat)
    ensures (r, offsets, calls) == WriteLoopRetrying(nonblock, t0, len, len, 0, answers)
  {
    var cnt: int := len;
    offsets := [];
    var k := 0;
    var died := false;
    assert answers[0..] == answers && [] + WriteLoopRetrying(nonblock, t0, len, len, 0, answers).1 == WriteLoopRetrying(nonblock, t0, len, len, 0, answers).1;
    while cnt > 0 && k < |answers| && !died
      invariant 0 <= k <= |answers| && 0 <= cnt <= len
      invariant ResumesAt(nonblock, t0, len, answers, cnt, offsets, k)
      invariant died ==> cnt > 0 && k < |answers| && WriteFatal(nonblock, t0, answers[k])
      decreases |answers| - k, if died then 0 else 1
    {
      var a := answers[k];
      if a.WriteFailed? && (a.errno != EAgain || !nonblock) {
        died := true;
      } else if a.WriteFailed? && a.sec - t0 >= 2 {
        died := true;
      } else {
        ResumeStep(nonblock, t0, len, answers, cnt, offsets, k);
        if a.Wrote? {
          var i := Min(a.n, cnt);
          offsets := offsets + Span(len - cnt, i);
          cnt := cnt - i;
        }
        k := k + 1;
      }
    }
    ResumeEnd(nonblock, t0, len, answers, cnt, offsets, k);
    if died {
      r, calls := WriteReturned(-1), k + 1;
    } else if cnt > 0 {
      r, calls := StillWriting, k;
    } else {
      r, calls := WriteReturned(len), k;
    }
  }

  /** write_vc with a tolerated EAGAIN retrying the same bytes: every byte
      of the buffer goes out once, in order, and a fatal answer marks the
      connection dead. `calls` is the number of answers used. */
  method WriteVc(cd: CfConn, len: nat, t0: int, answers: seq<WriteAnswer>) returns (r: WriteVcResult, offsets: seq<int>, ghost calls: nat)
    modifies cd
    ensures (r, offsets, calls) == WriteLoopRetrying(old(cd.nonblock), t0, len, len, 0, answers)
    ensures |offsets| <= len && offsets == Span(0, |offsets|)
    ensures r.WriteReturned? ==> r.ret == len || r.ret == -1
    ensures r == WriteReturned(len) ==> |offsets| == len
    ensures calls <= |answers|
    ensures forall k :: 0 <= k < calls - 1 ==> !WriteFatal(cd.nonblock, t0, answers[k])
    ensures r == WriteReturned(-1) ==> len > 0 && calls > 0 && WriteFatal(cd.nonblock, t0, answers[calls - 1])
    ensures r != WriteReturned(-1) && calls > 0 ==> !WriteFatal(cd.nonblock, t0, answers[calls - 1])
    ensures r == StillWriting ==> calls == |answers| && |offsets| < len
    ensures cd.strmStat == if r == WriteReturned(-1) then Died else old(cd.strmStat)
    ensures cd.xid == old(cd.xid) && cd.nonblock == old(cd.nonblock) && cd.lastRecvTime == old(cd.lastRecvTime)
    ensures cd.sendsize == old(cd.sendsize) && cd.recvsize == old(cd.recvsize) && cd.maxrec == old(cd.maxrec)
  {
    r, offsets, calls := WriteLoop(cd.nonblock, t0, len, answers);
    RetryingOffsets(cd.nonblock, t0, len, len, 0, answers);
    RetryingFatal(cd.nonblock, t0, len, len, 0, answers);
    if r == WriteReturned(-1) {
      cd.strmStat := Died;
    }
  }
}
