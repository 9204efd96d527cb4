/** Send-queue latency statistics (svc_ioq.c): how long replies waited
    between being handed to the transport and being flushed. The counters are
    64-bit and wrap; the largest wait is kept as it was seen. */
module SendStats {

  const U64: nat := 0x1_0000_0000_0000_0000
  const NsPerSec: nat := 1_000_000_000

  /** A struct timespec as the clock fills it. */
  datatype TimeSpec = TimeSpec(sec: int, nsec: int)

  /** What clock_gettime produces: nanoseconds within a second. */
  predicate Normalized(t: TimeSpec)
  {
    0 <= t.nsec < NsPerSec
  }

  /** The instant a timespec names, in nanoseconds. */
  function Nanos(t: TimeSpec): int
  {
    t.sec * NsPerSec + t.nsec
  }

  function Abs(x: int): nat
  {
    if x < 0 then -x else x
  }

  /** timespec_diff: the distance between two instants in nanoseconds,
      whichever comes first, computed in uint64 arithmetic. */
  function TimespecDiff(start: TimeSpec, end: TimeSpec): (d: nat)
    ensures d < U64
    ensures Normalized(start) && Normalized(end) ==> d == Abs(Nanos(end) - Nanos(start)) % U64
  {
    if end.sec > start.sec || (end.sec == start.sec && end.nsec >= start.nsec) then
      ((end.sec - start.sec) * NsPerSec + (end.nsec - start.nsec)) % U64
    else
      ((start.sec - end.sec) * NsPerSec + (start.nsec - end.nsec)) % U64
  }

  /** The order of the two instants does not matter to the distance. */
  lemma TimespecDiffSymmetric(a: TimeSpec, b: TimeSpec)
    requires Normalized(a) && Normalized(b)
    ensures TimespecDiff(a, b) == TimespecDiff(b, a)
  {
    assert Abs(Nanos(b) - Nanos(a)) == Abs(Nanos(a) - Nanos(b));
  }

  /** The sum of a list of waits. */
  function Sum(ws: seq<nat>): nat
  {
    if ws == [] then 0 else Sum(ws[..|ws| - 1]) + ws[|ws| - 1]
  }

  /** The largest of a list of waits; 0 for none. */
  function Largest(ws: seq<nat>): (m: nat)
    ensures forall i :: 0 <= i < |ws| ==> ws[i] <= m
    ensures ws != [] ==> m in ws
    ensures ws == [] ==> m == 0
  {
    if ws == [] then 0
    else
      var m' := Largest(ws[..|ws| - 1]);
      assert forall i :: 0 <= i < |ws| - 1 ==> ws[i] == ws[..|ws| - 1][i];
      if ws[|ws| - 1] > m' then ws[|ws| - 1] else m'
  }

  /** No wait exceeds the total, and the total is at most count times the
      largest: the mean lies between 0 and the maximum. */
  lemma {:induction false} SumBounds(ws: seq<nat>)
    ensures Largest(ws) <= Sum(ws) <= |ws| * Largest(ws)
  {
    if ws != [] {
      var init := ws[..|ws| - 1];
      SumBounds(init);
      assert Largest(init) <= Largest(ws) by {
        if init != [] {
          var k :| 0 <= k < |init| && init[k] == Largest(init);
          assert ws[k] == init[k];
        }
      }
      assert (|ws| - 1) * Largest(init) <= (|ws| - 1) * Largest(ws) by {
        MulMonotone(|ws| - 1, Largest(init), Largest(ws));
      }
    }
  }

  /** The counters after one more wait, from the counters before it. */
  lemma RecordStep(h: seq<nat>, w: nat)
    ensures |h + [w]| % U64 == (|h| % U64 + 1) % U64
    ensures Sum(h + [w]) % U64 == (Sum(h) % U64 + w) % U64
    ensures Largest(h + [w]) == if w > Largest(h) then w else Largest(h)
  {
    assert (h + [w])[..|h + [w]| - 1] == h;
    ModAdd(|h|, 1);
    ModAdd(Sum(h), w);
  }

  lemma ModAdd(a: nat, b: nat)
    ensures (a % U64 + b) % U64 == (a + b) % U64
  {
    var q := a / U64;
    assert a == q * U64 + a % U64;
    assert a + b == q * U64 + (a % U64 + b);
  }

  lemma MulMonotone(n: nat, a: nat, b: nat)
    requires a <= b
    ensures n * a <= n * b
  {
  }

  /** The three counters of the send queue and the switch that turns the
      recording on. history is every wait recorded since the last reset. */
  class SendqStats {
    var count: nat
    var wait: nat
    var max: nat
    var enabled: bool
    ghost var history: seq<nat>

    ghost predicate Valid()
      reads this
    {
      && (forall i :: 0 <= i < |history| ==> history[i] < U64)
      && count == |history| % U64
      && wait == Sum(history) % U64
      && max == Largest(history)
    }

    /** The statics as the program starts: all zero, recording off. */
    constructor ()
      ensures Valid() && history == [] && !enabled
    {
      count, wait, max, enabled := 0, 0, 0, false;
      history := [];
    }

    /** reset_sendq_stats: all three counters back to zero. */
    method Reset()
      requires Valid()
      modifies this
      ensures Valid() && history == [] && enabled == old(enabled)
    {
      max, count, wait := 0, 0, 0;
      history := [];
    }

    /** record_sendq_stats: one more wait; the count and the total wrap at
      2^64, the maximum is replaced only by a larger wait. */
    method Record(w: nat)
      requires Valid() && w < U64
      modifies this
      ensures Valid() && history == old(history) + [w] && enabled == old(enabled)
    {
      RecordStep(history, w);
      var m := if w > max then w else max;
      count, wait, max, history := (count + 1) % U64, (wait + w) % U64, m, history + [w];
    }

    method Enable()
      modifies this
      ensures enabled && count == old(count) && wait == old(wait) && max == old(max) && history == old(history)
    {
      enabled := true;
    }

    method Disable()
      modifies this
      ensures !enabled && count == old(count) && wait == old(wait) && max == old(max) && history == old(history)
    {
      enabled := false;
    }

    /** get_sendq_stats: the number of recorded waits, their total and the
      largest, the first two modulo 2^64. */
    method Get() returns (c: nat, w: nat, m: nat)
      requires Valid()
      ensures c == |history| % U64 && w == Sum(history) % U64
      ensures forall i :: 0 <= i < |history| ==> history[i] <= m
      ensures history != [] ==> m in history
      ensures m == Largest(history)
    {
      c, w, m := count, wait, max;
    }

    /** The statistics prelude of svc_ioq_flushv: when recording is on and
      the reply was stamped (a zero start time means it was not), its wait
      from start to end is recorded. */
    method RecordFlushWait(start: TimeSpec, end: TimeSpec)
      requires Valid()
      modifies this
      ensures Valid() && enabled == old(enabled)
      ensures history == if enabled && !(start.sec == 0 && start.nsec == 0)
                         then old(history) + [TimespecDiff(start, end)]
                         else old(history)
    {
      if enabled && !(start.sec == 0 && start.nsec == 0) {
        Record(TimespecDiff(start, end));
      }
    }
  }
}
