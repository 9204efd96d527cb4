/** The per-transport output queue of svc_ioq.c. A reply handed to the
    transport either becomes the current reply of a drainer (the thread that
    calls svc_ioq_write_now, or a work-pool job for svc_ioq_write_submit), or
    is appended to the queue that the running drainer empties, or is dropped
    when 2000 replies are already pending. The drainer flushes replies one at
    a time, in arrival order, until the pending count reaches zero. */
module SendQueue {
  import opened Common
  import RecordMarking
  import Flush
  import SendStats

  const QueueLimit: nat := 2000
  const SlowLogInterval: int := 30

  /** One reply: its identity, its XDR memory spans, the answers the socket
      gives to the writev calls of its flush, and its start-of-wait stamp. */
  datatype Reply = Reply(id: nat, spans: seq<seq<byte>>, answers: seq<int>, start: SendStats.TimeSpec)

  /** How a hand-over went: the caller must drain, the reply was queued
      behind a running drainer, or the reply was dropped. */
  datatype Admission = Drain | Queued | Dropped

  /** w is the record-marked encoding of a reply. */
  ghost predicate IsWire(spans: seq<seq<byte>>, maxiov: nat, w: seq<byte>)
  {
    RecordMarking.ValidSpans(spans) && maxiov >= 2 && w == RecordMarking.WireFrom(spans, 0, maxiov)
  }

  /** What one flush can have put on the wire: a prefix of the reply's
      record-marked encoding (see SentPrefixMeans). The encoding is reached
      through IsWire so that reasoning about the queue does not unfold it. */
  ghost predicate SentPrefix(spans: seq<seq<byte>>, maxiov: nat, sent: seq<byte>)
  {
    && RecordMarking.ValidSpans(spans) && maxiov >= 2
    && forall w {:trigger IsWire(spans, maxiov, w)} :: IsWire(spans, maxiov, w) ==> sent <= w
  }

  lemma SentPrefixMeans(spans: seq<seq<byte>>, maxiov: nat, sent: seq<byte>)
    requires RecordMarking.ValidSpans(spans) && maxiov >= 2
    ensures SentPrefix(spans, maxiov, sent) <==> sent <= RecordMarking.WireFrom(spans, 0, maxiov)
  {
    assert IsWire(spans, maxiov, RecordMarking.WireFrom(spans, 0, maxiov));
  }

  /** What a drain did with one reply: its flush was skipped (the pool has
      no threads, or the transport is being destroyed), or it ran and ended
      with this outcome after this many writev calls. */
  datatype FlushRecord = Skipped | Ran(outcome: Flush.Outcome, calls: nat)

  /** The record of a released reply agrees with its writev answers and with
      what it sent: a skipped flush sends nothing, a flush dies exactly when
      its last writev answer was negative, and one that ended normally sent
      the whole record-marked encoding. */
  ghost predicate Recorded(r: Reply, maxiov: nat, sent: seq<byte>, f: FlushRecord)
  {
    && (f.Skipped? ==> sent == [])
    && (f.Ran? ==>
          && f.calls <= |r.answers|
          && (f.outcome == Flush.Died <==> f.calls > 0 && r.answers[f.calls - 1] < 0)
          && (f.outcome == Flush.Flushed ==> IsWire(r.spans, maxiov, sent)))
  }

  /** Each released reply rs[i] put out ss[i], a prefix of its encoding, and
      its flush is recorded in fs[i]. */
  ghost predicate Accounted(rs: seq<Reply>, ss: seq<seq<byte>>, fs: seq<FlushRecord>, maxiov: nat)
  {
    && |ss| == |rs| && |fs| == |rs|
    && (forall i :: 0 <= i < |rs| ==> SentPrefix(rs[i].spans, maxiov, ss[i]) && Recorded(rs[i], maxiov, ss[i], fs[i]))
  }

  lemma AccountedAppend(rs: seq<Reply>, ss: seq<seq<byte>>, fs: seq<FlushRecord>, maxiov: nat,
                        r: Reply, s: seq<byte>, f: FlushRecord)
    requires Accounted(rs, ss, fs, maxiov)
    requires SentPrefix(r.spans, maxiov, s) && Recorded(r, maxiov, s, f)
    ensures Accounted(rs + [r], ss + [s], fs + [f], maxiov)
  {
    forall i | 0 <= i < |rs| + 1
      ensures SentPrefix((rs + [r])[i].spans, maxiov, (ss + [s])[i]) && Recorded((rs + [r])[i], maxiov, (ss + [s])[i], (fs + [f])[i])
    {
      if i == |rs| {
        assert (rs + [r])[i] == r && (ss + [s])[i] == s && (fs + [f])[i] == f;
      } else {
        assert (rs + [r])[i] == rs[i] && (ss + [s])[i] == ss[i] && (fs + [f])[i] == fs[i];
      }
    }
  }

  /** A flush that ran and ended with a failed writev. */
  ghost predicate IsDeath(f: FlushRecord)
  {
    f.Ran? && f.outcome == Flush.Died
  }

  /** Some flush among fs died. */
  ghost predicate Deaths(fs: seq<FlushRecord>)
  {
    exists i :: 0 <= i < |fs| && IsDeath(fs[i])
  }

  lemma DeathsAppend(fs: seq<FlushRecord>, f: FlushRecord)
    ensures Deaths(fs + [f]) == (Deaths(fs) || IsDeath(f))
  {
    if IsDeath(f) {
      assert (fs + [f])[|fs|] == f;
    }
    if Deaths(fs) {
      var i :| 0 <= i < |fs| && IsDeath(fs[i]);
      assert (fs + [f])[i] == fs[i];
    }
  }

  /** Since the drain loop began with the records prev and the dead flag
      dead0, every flush it ran was run exactly when flushing is on, and the
      connection is dead exactly when it was before or one of those flushes
      died. */
  ghost predicate DrainedSince(prev: seq<FlushRecord>, dead0: bool, fs: seq<FlushRecord>, dead: bool, flushing: bool)
  {
    && prev <= fs
    && (forall i :: |prev| <= i < |fs| ==> (fs[i].Ran? <==> flushing))
    && dead == (dead0 || Deaths(fs[|prev|..]))
  }

  /** One more pass of the drain loop keeps DrainedSince. */
  lemma DrainedStep(prev: seq<FlushRecord>, dead0: bool, fs: seq<FlushRecord>, dead: bool, flushing: bool,
                    f: FlushRecord, dead': bool)
    requires DrainedSince(prev, dead0, fs, dead, flushing)
    requires (f.Ran? <==> flushing) && dead' == (dead || IsDeath(f))
    ensures DrainedSince(prev, dead0, fs + [f], dead', flushing)
  {
    assert (fs + [f])[|prev|..] == fs[|prev|..] + [f];
    DeathsAppend(fs[|prev|..], f);
  }

  /** One flush of a reply (svc_ioq_flushv): what the socket accepted, and
      whether a writev failed, which happens exactly when the last writev
      answer used was negative. A flush that ended normally sent the whole
      record-marked encoding of the reply. */
  method FlushReply(r: Reply, maxiov: nat) returns (sent: seq<byte>, died: bool, ghost f: FlushRecord)
    requires RecordMarking.ValidSpans(r.spans) && maxiov >= 2
    ensures SentPrefix(r.spans, maxiov, sent)
    ensures f.Ran? && Recorded(r, maxiov, sent, f)
    ensures died <==> f.calls > 0 && r.answers[f.calls - 1] < 0
    ensures f.outcome == Flush.Flushed ==> sent == RecordMarking.WireFrom(r.spans, 0, maxiov)
  {
    var outcome, calls;
    sent, outcome, calls := Flush.FlushV(r.spans, maxiov, r.answers);
    died := outcome == Flush.Died;
    f := Ran(outcome, calls);
    SentPrefixMeans(r.spans, maxiov, sent);
  }

  function Jobs(job: Option<Reply>): seq<Reply>
  {
    if job.Some? then [job.value] else []
  }

  /** The rate limit of the "client is slow" message: a drop at time now is
      logged when now is more than 30 seconds after the last logged one. */
  function SlowLogStep(lastTime: int, now: int): (r: (int, bool))
    ensures r.1 <==> now > lastTime + SlowLogInterval
    ensures r.0 == if r.1 then now else lastTime
  {
    if now > lastTime + SlowLogInterval then (now, true) else (lastTime, false)
  }

  /** The logs that a run of drops at the given times produces, starting
      from the given last time. */
  function SlowLogs(lastTime: int, drops: seq<int>): seq<int>
    decreases |drops|
  {
    if drops == [] then []
    else
      var (t, logged) := SlowLogStep(lastTime, drops[0]);
      (if logged then [drops[0]] else []) + SlowLogs(t, drops[1..])
  }

  /** Logged messages are more than 30 seconds apart, and the first is more
      than 30 seconds after the starting last time. */
  lemma {:induction false} SlowLogsSpaced(lastTime: int, drops: seq<int>)
    ensures var logs := SlowLogs(lastTime, drops);
      && (forall i :: 0 <= i < |logs| ==> logs[i] in drops)
      && (|logs| > 0 ==> logs[0] > lastTime + SlowLogInterval)
      && (forall i :: 0 <= i < |logs| - 1 ==> logs[i] + SlowLogInterval < logs[i + 1])
    decreases |drops|
  {
    if drops != [] {
      var (t, logged) := SlowLogStep(lastTime, drops[0]);
      var rest := SlowLogs(t, drops[1..]);
      SlowLogsSpaced(t, drops[1..]);
      var logs := SlowLogs(lastTime, drops);
      assert logs == (if logged then [drops[0]] else []) + rest;
      forall i | 0 <= i < |rest| ensures rest[i] in drops {
        assert rest[i] in drops[1..];
      }
      if logged {
        assert forall i :: 1 <= i < |logs| ==> logs[i] == rest[i - 1];
      }
    }
  }

  /** The process-wide state of the slow-client message (the static
      last_time of svc_ioq.c) and the times at which it was logged. */
  class SlowLog {
    var lastTime: int
    var logs: seq<int>

    ghost predicate Valid()
      reads this
    {
      && (|logs| > 0 ==> logs[|logs| - 1] == lastTime)
      && (forall i :: 0 <= i < |logs| - 1 ==> logs[i] + SlowLogInterval < logs[i + 1])
    }

    constructor ()
      ensures Valid() && lastTime == 0 && logs == []
    {
      lastTime, logs := 0, [];
    }

    /** One dropped reply at wall-clock time now (time(NULL)). */
    method Drop(now: int)
      requires Valid()
      modifies this
      ensures Valid()
      ensures (lastTime, |logs| > |old(logs)|) == SlowLogStep(old(lastTime), now)
      ensures logs == old(logs) + (if now > old(lastTime) + SlowLogInterval then [now] else [])
    {
      if now > lastTime + SlowLogInterval {
        lastTime := now;
        logs := logs + [now];
      }
    }
  }

  /** The flush part of one pass of the drain loop: when flushing is on (the
      pool has threads and the transport is not being destroyed), the wait is
      recorded and the reply is flushed; otherwise nothing is sent. */
  method FlushStep(cur: Reply, maxiov: nat, flushing: bool, stats: SendStats.SendqStats, clock: SendStats.TimeSpec)
    returns (sent: seq<byte>, died: bool, ghost f: FlushRecord)
    requires RecordMarking.ValidSpans(cur.spans) && maxiov >= 2 && stats.Valid()
    modifies stats
    ensures stats.Valid() && stats.enabled == old(stats.enabled)
    ensures SentPrefix(cur.spans, maxiov, sent) && Recorded(cur, maxiov, sent, f)
    ensures f.Ran? <==> flushing
    ensures died <==> IsDeath(f)
    ensures f.Ran? && f.outcome == Flush.Flushed ==> sent == RecordMarking.WireFrom(cur.spans, 0, maxiov)
  {
    sent, died, f := [], false, Skipped;
    SentPrefixMeans(cur.spans, maxiov, sent);
    if flushing {
      stats.RecordFlushWait(cur.start, clock);
      sent, died, f := FlushReply(cur, maxiov);
    }
  }

  /** The send side of one stream transport: the poolq_head of xprt->sendq
      (qcount and the tail queue), the transport flags and references the
      send path touches, and what went out on the socket. */
  class SendQueue {
    /** Replies handed over and not yet released: the current reply of the
        drainer, if any, and the queued ones. */
    var qcount: int
    var queue: seq<Reply>
    /** A submitted svc_ioq_write_callback that has not yet run. */
    var job: Option<Reply>
    /** References on the transport held by the send path. */
    var refs: int
    /** SVC_XPRT_FLAG_DESTROYED: replies are then released unflushed. */
    var destroyed: bool
    /** strm_stat == XPRT_DIED, set by a failed writev. */
    var dead: bool
    /** The bytes the socket accepted. */
    var wire: seq<byte>
    /** Released replies in release order, with the bytes each put on the
        wire, and dropped replies. */
    var released: seq<Reply>
    var sentOf: seq<seq<byte>>
    /** What each released reply's drain did with its flush. */
    ghost var flushes: seq<FlushRecord>
    var dropped: seq<Reply>
    /** Every reply admitted to the queue, in admission order. */
    ghost var admitted: seq<Reply>
    /** __svc_maxiov and the work pool's thread limit. */
    const maxiov: nat
    const poolThreads: nat

    /** The queue's invariant when the replies in `held` are held by
        drainers (the running svc_ioq_write, or a pending pool job) and not
        in the queue: every admitted reply is released, held or queued, in
        admission order, each one counted in qcount, and the wire holds the
        bytes of the released ones in release order, each a prefix of its
        record-marked encoding. */
    ghost predicate Holding(held: seq<Reply>)
      reads this`qcount, this`queue, this`admitted, this`released, this`wire, this`sentOf, this`flushes
    {
      && maxiov >= 2
      && qcount == |queue| + |held|
      && qcount <= QueueLimit
      && admitted == released + held + queue
      && (forall i :: 0 <= i < |queue| ==> RecordMarking.ValidSpans(queue[i].spans))
      && (forall i :: 0 <= i < |held| ==> RecordMarking.ValidSpans(held[i].spans))
      && wire == Flatten(sentOf)
      && Accounted(released, sentOf, flushes, maxiov)
    }

    /** Between operations: only a pending job can hold a reply, and each
        pending reply holds one reference on the transport. */
    ghost predicate Valid()
      reads this
    {
      Holding(Jobs(job)) && refs == qcount
    }

    constructor (maxiov: nat, poolThreads: nat)
      requires maxiov >= 2
      ensures Valid() && qcount == 0 && job == None && !destroyed && !dead
      ensures wire == [] && released == [] && dropped == [] && admitted == []
      ensures this.maxiov == maxiov && this.poolThreads == poolThreads
    {
      this.maxiov, this.poolThreads := maxiov, poolThreads;
      qcount, queue, job, refs := 0, [], None, 0;
      destroyed, dead := false, false;
      wire, released, sentOf, dropped := [], [], [], [];
      flushes := [];
      admitted := [];
    }

    /** The locked hand-over shared by svc_ioq_write_now and
      svc_ioq_write_submit: the reply is stamped and referenced; the first
      pending reply makes its caller the drainer, later ones are queued
      behind it, and one that would make more than 2000 pending is dropped,
      its reference given back, and logged at most every 30 seconds. */
    method Admit(r: Reply, stamp: SendStats.TimeSpec, now: int, log: SlowLog) returns (a: Admission, r': Reply)
      requires Valid() && log.Valid()
      requires RecordMarking.ValidSpans(r.spans)
      modifies this, log
      ensures r' == r.(start := stamp)
      ensures a == Drain <==> old(qcount) == 0
      ensures a == Dropped <==> old(qcount) + 1 > QueueLimit
      ensures a == Drain ==> job == None && Holding([r']) && refs == 1 && queue == [] && admitted == old(admitted) + [r']
      ensures a == Queued ==> qcount == old(qcount) + 1 && refs == old(refs) + 1
                              && queue == old(queue) + [r'] && admitted == old(admitted) + [r']
      ensures a == Dropped ==> qcount == old(qcount) && refs == old(refs) && queue == old(queue)
                               && dropped == old(dropped) + [r'] && admitted == old(admitted)
      ensures a != Dropped ==> dropped == old(dropped) && unchanged(log)
      ensures a == Dropped ==> log.logs == old(log.logs) + (if now > old(log.lastTime) + SlowLogInterval then [now] else [])
      ensures a != Drain ==> Valid()
      ensures log.Valid()
      ensures job == old(job) && destroyed == old(destroyed) && dead == old(dead) && wire == old(wire)
      ensures released == old(released) && sentOf == old(sentOf) && flushes == old(flushes)
    {
      r' := r.(start := stamp);
      if qcount > 0 {
        if qcount + 1 > QueueLimit {
          DropReply(r', now, log);
          a := Dropped;
          return;
        }
        Enqueue(r');
        a := Queued;
        return;
      }
      refs, qcount := refs + 1, qcount + 1;
      admitted := admitted + [r'];
      a := Drain;
    }

    /** A reply admitted behind the drainer: referenced, counted, and put at
        the tail of the queue. */
    method Enqueue(r: Reply)
      requires Valid() && 0 < qcount < QueueLimit
      requires RecordMarking.ValidSpans(r.spans)
      modifies this
      ensures Valid()
      ensures qcount == old(qcount) + 1 && refs == old(refs) + 1
      ensures queue == old(queue) + [r] && admitted == old(admitted) + [r]
      ensures job == old(job) && destroyed == old(destroyed) && dead == old(dead) && wire == old(wire)
      ensures released == old(released) && sentOf == old(sentOf) && flushes == old(flushes) && dropped == old(dropped)
    {
      refs, qcount := refs + 1, qcount + 1;
      queue := queue + [r];
      admitted := admitted + [r];
    }

    /** A reply over the limit: its reference is given back at once, the
        count is left as it was, and the drop may be logged. */
    method DropReply(r: Reply, now: int, log: SlowLog)
      requires Valid() && log.Valid()
      modifies this, log
      ensures Valid() && log.Valid()
      ensures dropped == old(dropped) + [r]
      ensures log.logs == old(log.logs) + (if now > old(log.lastTime) + SlowLogInterval then [now] else [])
      ensures qcount == old(qcount) && refs == old(refs) && queue == old(queue) && admitted == old(admitted)
      ensures job == old(job) && destroyed == old(destroyed) && dead == old(dead) && wire == old(wire)
      ensures released == old(released) && sentOf == old(sentOf) && flushes == old(flushes)
    {
      dropped := dropped + [r];
      log.Drop(now);
    }

    /** svc_ioq_write: the drain loop. The drainer holds one extra reference
      while it runs. Each reply is flushed (when the pool has threads and the
      transport is not being destroyed), released and its XDR stream
      destroyed; then, under the lock, the pending count is decremented and
      the loop ends when it reaches zero, or takes the queue's head. */
    method Write(r: Reply, stats: SendStats.SendqStats, clock: SendStats.TimeSpec)
      requires job == None && Holding([r]) && refs == qcount
      requires stats.Valid()
      modifies this, stats
      ensures Valid() && stats.Valid() && stats.enabled == old(stats.enabled)
      ensures qcount == 0 && queue == [] && refs == 0 && job == None
      ensures released == old(released) + [r] + old(queue) && admitted == old(admitted)
      ensures old(wire) <= wire
      ensures destroyed || poolThreads == 0 ==> wire == old(wire) && dead == old(dead)
      ensures dropped == old(dropped) && destroyed == old(destroyed)
      ensures DrainedSince(old(flushes), old(dead), flushes, dead, poolThreads > 0 && !destroyed)
      ensures old(sentOf) <= sentOf
    {
      refs := refs + 1;
      var cur := r;
      ghost var prev, dead0, flushing := flushes, dead, poolThreads > 0 && !destroyed;
      while true
        invariant job == None && Holding([cur]) && refs == qcount + 1
        invariant admitted == old(admitted)
        invariant old(wire) <= wire
        invariant destroyed || poolThreads == 0 ==> wire == old(wire) && dead == old(dead)
        invariant stats.Valid() && stats.enabled == old(stats.enabled)
        invariant dropped == old(dropped) && destroyed == old(destroyed)
        invariant DrainedSince(prev, dead0, flushes, dead, flushing)
        invariant old(sentOf) <= sentOf
        decreases qcount
      {
        var _, _ := DrainOne(cur, stats, clock, prev, dead0);
        if qcount == 0 {
          break;
        }
        cur := TakeHead();
      }
      refs := refs - 1;
    }

    /** TAILQ_FIRST and TAILQ_REMOVE: the drainer takes the queue's head. */
    method TakeHead() returns (cur: Reply)
      requires Holding([]) && qcount > 0
      modifies this
      ensures Holding([cur]) && [cur] + queue == old(queue)
      ensures qcount == old(qcount) && refs == old(refs) && job == old(job) && admitted == old(admitted)
      ensures released == old(released) && sentOf == old(sentOf) && flushes == old(flushes) && wire == old(wire)
      ensures destroyed == old(destroyed) && dead == old(dead) && dropped == old(dropped)
    {
      cur := queue[0];
      queue := queue[1..];
      assert [cur] + queue == old(queue);
    }

    /** svc_ioq_write_now: the hand-over, and when it makes the caller the
      drainer, the drain loop run by the caller. */
    method WriteNow(r: Reply, stamp: SendStats.TimeSpec, now: int, log: SlowLog,
                    stats: SendStats.SendqStats, clock: SendStats.TimeSpec) returns (a: Admission)
      requires Valid() && log.Valid() && stats.Valid() && log != stats as object
      requires RecordMarking.ValidSpans(r.spans)
      modifies this, log, stats
      ensures Valid() && log.Valid() && stats.Valid()
      ensures a == Drain <==> old(qcount) == 0
      ensures a == Dropped <==> old(qcount) + 1 > QueueLimit
      ensures a == Drain ==> qcount == 0 && released == old(released) + [r.(start := stamp)]
      ensures a == Queued ==> queue == old(queue) + [r.(start := stamp)] && released == old(released)
      ensures a == Dropped ==> queue == old(queue) && dropped == old(dropped) + [r.(start := stamp)]
      ensures job == old(job)
      ensures a != Dropped ==> dropped == old(dropped) && log.logs == old(log.logs) && log.lastTime == old(log.lastTime)
      ensures a == Dropped ==> log.logs == old(log.logs) + (if now > old(log.lastTime) + SlowLogInterval then [now] else [])
      ensures destroyed == old(destroyed)
      ensures a != Drain ==> dead == old(dead) && wire == old(wire) && sentOf == old(sentOf) && flushes == old(flushes)
      ensures a == Drain ==> DrainedSince(old(flushes), old(dead), flushes, dead, poolThreads > 0 && !destroyed)
      ensures a == Drain ==> old(wire) <= wire && old(sentOf) <= sentOf
      ensures destroyed || poolThreads == 0 ==> wire == old(wire) && dead == old(dead)
    {
      var r';
      a, r' := Admit(r, stamp, now, log);
      if a == Drain {
        Write(r', stats, clock);
      }
    }

    /** svc_ioq_write_submit: the hand-over, and when it makes the caller the
      drainer, a work-pool job that will run the drain loop. */
    method WriteSubmit(r: Reply, stamp: SendStats.TimeSpec, now: int, log: SlowLog) returns (a: Admission)
      requires Valid() && log.Valid()
      requires RecordMarking.ValidSpans(r.spans)
      modifies this, log
      ensures Valid() && log.Valid()
      ensures a == Drain <==> old(qcount) == 0
      ensures a == Dropped <==> old(qcount) + 1 > QueueLimit
      ensures a == Drain ==> job == Some(r.(start := stamp)) && qcount == 1 && queue == []
      ensures a != Drain ==> job == old(job)
      ensures a == Queued ==> queue == old(queue) + [r.(start := stamp)]
      ensures a == Dropped ==> queue == old(queue) && dropped == old(dropped) + [r.(start := stamp)]
      ensures released == old(released) && wire == old(wire)
      ensures a != Dropped ==> dropped == old(dropped) && log.logs == old(log.logs) && log.lastTime == old(log.lastTime)
      ensures a == Dropped ==> log.logs == old(log.logs) + (if now > old(log.lastTime) + SlowLogInterval then [now] else [])
      ensures destroyed == old(destroyed)
      ensures dead == old(dead) && sentOf == old(sentOf) && flushes == old(flushes)
    {
      var r';
      a, r' := Admit(r, stamp, now, log);
      if a == Drain {
        job := Some(r');
      }
    }

    /** svc_ioq_write_callback: the pool runs the submitted job, which drains
      the queue starting with the submitted reply. */
    method RunJob(stats: SendStats.SendqStats, clock: SendStats.TimeSpec)
      requires Valid() && stats.Valid() && job.Some?
      modifies this, stats
      ensures Valid() && stats.Valid()
      ensures job == None && qcount == 0 && queue == []
      ensures released == old(released) + [old(job).value] + old(queue)
      ensures DrainedSince(old(flushes), old(dead), flushes, dead, poolThreads > 0 && !destroyed)
      ensures old(wire) <= wire && old(sentOf) <= sentOf && destroyed == old(destroyed)
      ensures destroyed || poolThreads == 0 ==> wire == old(wire) && dead == old(dead)
    {
      var cur := job.value;
      job := None;
      Write(cur, stats, clock);
    }

    /** One pass of the drain loop for the reply `cur`: the flush (when the
      pool has threads and the transport is not being destroyed; a failed
      writev marks the connection dead), the release of its reference, and
      its end in ReleaseOne. */
    method DrainOne(cur: Reply, stats: SendStats.SendqStats, clock: SendStats.TimeSpec,
                    ghost prev: seq<FlushRecord>, ghost dead0: bool)
      returns (sent: seq<byte>, ghost f: FlushRecord)
      requires job == None && Holding([cur]) && refs == qcount + 1
      requires stats.Valid()
      requires DrainedSince(prev, dead0, flushes, dead, poolThreads > 0 && !destroyed)
      modifies this, stats
      ensures job == None && Holding([]) && refs == qcount + 1
      ensures qcount == old(qcount) - 1 && queue == old(queue) && released == old(released) + [cur]
      ensures sentOf == old(sentOf) + [sent] && flushes == old(flushes) + [f]
      ensures f.Ran? <==> poolThreads > 0 && !destroyed
      ensures dead == (old(dead) || IsDeath(f))
      ensures Recorded(cur, maxiov, sent, f)
      ensures IsDeath(f) <==> f.Ran? && f.calls > 0 && cur.answers[f.calls - 1] < 0
      ensures f.Ran? && f.outcome == Flush.Flushed ==> sent == RecordMarking.WireFrom(cur.spans, 0, maxiov)
      ensures old(wire) <= wire && admitted == old(admitted)
      ensures destroyed || poolThreads == 0 ==> wire == old(wire) && dead == old(dead)
      ensures stats.Valid() && stats.enabled == old(stats.enabled)
      ensures dropped == old(dropped) && destroyed == old(destroyed)
      ensures DrainedSince(prev, dead0, flushes, dead, poolThreads > 0 && !destroyed)
    {
      assert [cur][0] == cur;
      var died;
      sent, died, f := FlushStep(cur, maxiov, poolThreads > 0 && !destroyed, stats, clock);
      DrainedStep(prev, dead0, flushes, dead, poolThreads > 0 && !destroyed, f, dead || died);
      if died {
        dead := true;
      }
      refs := refs - 1;
      ReleaseOne(cur, sent, f);
    }

    /** The end of one reply in the drain loop: the bytes its flush put out
      join the wire, it is released, and the pending count drops by one. */
    method ReleaseOne(cur: Reply, sent: seq<byte>, ghost f: FlushRecord)
      requires Holding([cur])
      requires SentPrefix(cur.spans, maxiov, sent) && Recorded(cur, maxiov, sent, f)
      modifies this
      ensures Holding([]) && qcount == old(qcount) - 1
      ensures released == old(released) + [cur] && sentOf == old(sentOf) + [sent]
      ensures flushes == old(flushes) + [f]
      ensures wire == old(wire) + sent
      ensures queue == old(queue) && job == old(job) && refs == old(refs)
      ensures destroyed == old(destroyed) && dead == old(dead) && dropped == old(dropped)
      ensures admitted == old(admitted)
    {
      FlattenAppend(sentOf, [sent]);
      FlattenSingle(sent);
      AccountedAppend(released, sentOf, flushes, maxiov, cur, sent, f);
      released := released + [cur];
      sentOf := sentOf + [sent];
      flushes := flushes + [f];
      wire := wire + sent;
      qcount := qcount - 1;
    }
  }
}
