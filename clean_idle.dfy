/** The descriptor-indexed table of registered transports as svc_vc.c uses
    it: the reaper of idle connections (__svc_clean_idle) and the accept
    path of a listener (rendezvous_request), which registers each accepted
    connection and, when the process runs out of descriptors, reaps the
    least active one and tries again. */
module IdleReaper {
  import opened Common
  import opened StreamConn

  const UsecPerSec: int := 1_000_000

  /** What gettimeofday produces: microseconds within a second. */
  predicate Normalized(t: TimeVal)
  {
    0 <= t.usec < UsecPerSec
  }

  /** The instant a timeval names, in microseconds. */
  function Micros(t: TimeVal): int
  {
    t.sec * UsecPerSec + t.usec
  }

  const Zero: TimeVal := TimeVal(0, 0)

  /** timersub: a - b, borrowing a second when the microseconds go
      negative. */
  function TimerSub(a: TimeVal, b: TimeVal): (r: TimeVal)
    ensures Micros(r) == Micros(a) - Micros(b)
    ensures Normalized(a) && Normalized(b) ==> Normalized(r)
  {
    if a.usec - b.usec < 0 then TimeVal(a.sec - b.sec - 1, a.usec - b.usec + UsecPerSec)
    else TimeVal(a.sec - b.sec, a.usec - b.usec)
  }

  /** timercmp(a, b, >): seconds first, microseconds on a tie. */
  predicate TimerGt(a: TimeVal, b: TimeVal)
  {
    if a.sec == b.sec then a.usec > b.usec else a.sec > b.sec
  }

  /** On normalized timevals the comparison is the order of the instants. */
  lemma TimerGtMeansLater(a: TimeVal, b: TimeVal)
    requires Normalized(a) && Normalized(b)
    ensures TimerGt(a, b) <==> Micros(a) > Micros(b)
  {
    if a.sec > b.sec {
      assert a.sec * UsecPerSec >= b.sec * UsecPerSec + UsecPerSec;
    } else if a.sec < b.sec {
      assert b.sec * UsecPerSec >= a.sec * UsecPerSec + UsecPerSec;
    }
  }

  /** What kind of transport a table slot holds, as far as the reaper can
      tell from its receive operation. */
  datatype XprtKind = StreamConnection | StreamListener | OtherTransport

  /** A registered transport: its kind and, for a stream connection, the
      two fields of its private state the reaper reads. */
  datatype Entry = Entry(kind: XprtKind, nonblock: bool, lastRecv: TimeVal)

  type Table = seq<Option<Entry>>

  /** The transports a reaping pass looks at: a slot up to maxfd, in the
      given descriptor set, holding a stream connection, and non-blocking
      unless blocking ones are to be cleaned too. */
  predicate Eligible(xs: Table, maxfd: int, fds: set<int>, cleanblock: bool, j: int)
  {
    && 0 <= j <= maxfd && j < |xs| && j in fds
    && xs[j].Some? && xs[j].value.kind == StreamConnection
    && (cleanblock || xs[j].value.nonblock)
  }

  /** How long an entry has been idle at `now`. */
  function IdleFor(e: Entry, now: TimeVal): TimeVal
  {
    TimerSub(now, e.lastRecv)
  }

  /** An eligible entry whose whole seconds of idleness exceed the
      timeout. */
  predicate Expired(xs: Table, maxfd: int, fds: set<int>, cleanblock: bool, now: TimeVal, timeout: int, j: int)
  {
    Eligible(xs, maxfd, fds, cleanblock, j) && now.sec - xs[j].value.lastRecv.sec > timeout
  }

  /** The table once the expired entries below `upto` are removed. */
  function Reaped(xs: Table, maxfd: int, fds: set<int>, cleanblock: bool, now: TimeVal, timeout: int, upto: int): (r: Table)
    ensures |r| == |xs|
    ensures forall j :: 0 <= j < |xs| ==> r[j] == if j < upto && Expired(xs, maxfd, fds, cleanblock, now, timeout, j) then None else xs[j]
  {
    seq(|xs|, j requires 0 <= j < |xs| =>
      if j < upto && Expired(xs, maxfd, fds, cleanblock, now, timeout, j) then None else xs[j])
  }

  /** A second pass straight after the first finds nothing more to reap. */
  lemma ReapedIdempotent(xs: Table, maxfd: int, fds: set<int>, cleanblock: bool, now: TimeVal, timeout: int)
    ensures var once := Reaped(xs, maxfd, fds, cleanblock, now, timeout, |xs|);
      Reaped(once, maxfd, fds, cleanblock, now, timeout, |xs|) == once
  {
  }

  /** `k` is the entry a timeout-0 pass picks: eligible, idle for a
      positive time, idle strictly longer than every eligible entry before
      it and at least as long as every eligible entry after it. */
  predicate MostIdleAt(xs: Table, maxfd: int, fds: set<int>, cleanblock: bool, now: TimeVal, k: int)
  {
    && Eligible(xs, maxfd, fds, cleanblock, k)
    && TimerGt(IdleFor(xs[k].value, now), Zero)
    && (forall j :: 0 <= j < k && Eligible(xs, maxfd, fds, cleanblock, j) ==>
          TimerGt(IdleFor(xs[k].value, now), IdleFor(xs[j].value, now)))
    && (forall j :: k < j < |xs| && Eligible(xs, maxfd, fds, cleanblock, j) ==>
          !TimerGt(IdleFor(xs[j].value, now), IdleFor(xs[k].value, now)))
  }

  /** No eligible entry has been idle for a positive time. */
  predicate NoneIdle(xs: Table, maxfd: int, fds: set<int>, cleanblock: bool, now: TimeVal)
  {
    forall j :: 0 <= j < |xs| && Eligible(xs, maxfd, fds, cleanblock, j) ==> !TimerGt(IdleFor(xs[j].value, now), Zero)
  }

  /** At most one entry is the most idle, and there is none when no entry
      is idle at all. */
  lemma MostIdleUnique(xs: Table, maxfd: int, fds: set<int>, cleanblock: bool, now: TimeVal, k1: int, k2: int)
    requires MostIdleAt(xs, maxfd, fds, cleanblock, now, k1)
    requires MostIdleAt(xs, maxfd, fds, cleanblock, now, k2)
    ensures k1 == k2
  {
  }

  lemma NoneIdleExcludesMostIdle(xs: Table, maxfd: int, fds: set<int>, cleanblock: bool, now: TimeVal, k: int)
    requires NoneIdle(xs, maxfd, fds, cleanblock, now)
    ensures !MostIdleAt(xs, maxfd, fds, cleanblock, now, k)
  {
  }

  /** With clock readings as gettimeofday gives them, the entry picked is
      the one that last received earliest (the lowest descriptor among
      equals), and it last received before now. */
  lemma MostIdleIsOldest(xs: Table, maxfd: int, fds: set<int>, cleanblock: bool, now: TimeVal, k: int)
    requires MostIdleAt(xs, maxfd, fds, cleanblock, now, k)
    requires Normalized(now)
    requires forall j :: 0 <= j < |xs| && xs[j].Some? ==> Normalized(xs[j].value.lastRecv)
    ensures Micros(xs[k].value.lastRecv) < Micros(now)
    ensures forall j :: 0 <= j < k && Eligible(xs, maxfd, fds, cleanblock, j) ==>
      Micros(xs[k].value.lastRecv) < Micros(xs[j].value.lastRecv)
    ensures forall j :: k < j && Eligible(xs, maxfd, fds, cleanblock, j) ==>
      Micros(xs[k].value.lastRecv) <= Micros(xs[j].value.lastRecv)
  {
    var ik := IdleFor(xs[k].value, now);
    TimerGtMeansLater(ik, Zero);
    forall j | 0 <= j < k && Eligible(xs, maxfd, fds, cleanblock, j)
      ensures Micros(xs[k].value.lastRecv) < Micros(xs[j].value.lastRecv)
    {
      TimerGtMeansLater(ik, IdleFor(xs[j].value, now));
    }
    forall j | k < j && Eligible(xs, maxfd, fds, cleanblock, j)
      ensures Micros(xs[k].value.lastRecv) <= Micros(xs[j].value.lastRecv)
    {
      TimerGtMeansLater(IdleFor(xs[j].value, now), ik);
    }
  }

  /** The state of a timeout-0 scan after the slots below `i`: `least` is
      the index of the most idle entry so far (-1 for none) and `tmax` how
      long it has been idle. */
  predicate Leader(xs: Table, maxfd: int, fds: set<int>, cleanblock: bool, now: TimeVal, i: int, least: int, tmax: TimeVal)
  {
    && (least == -1 ==>
          && tmax == Zero
          && forall j :: 0 <= j < i && Eligible(xs, maxfd, fds, cleanblock, j) ==> !TimerGt(IdleFor(xs[j].value, now), Zero))
    && (least != -1 ==>
          && 0 <= least < i
          && Eligible(xs, maxfd, fds, cleanblock, least)
          && tmax == IdleFor(xs[least].value, now)
          && TimerGt(tmax, Zero)
          && (forall j :: 0 <= j < least && Eligible(xs, maxfd, fds, cleanblock, j) ==> TimerGt(tmax, IdleFor(xs[j].value, now)))
          && (forall j :: least < j < i && Eligible(xs, maxfd, fds, cleanblock, j) ==> !TimerGt(IdleFor(xs[j].value, now), tmax)))
  }

  /** A scan that has passed every slot up to maxfd has found the most idle
      entry, or found that none is idle. */
  lemma LeaderComplete(xs: Table, maxfd: int, fds: set<int>, cleanblock: bool, now: TimeVal, least: int, tmax: TimeVal)
    requires Leader(xs, maxfd, fds, cleanblock, now, maxfd + 1, least, tmax)
    ensures least == -1 ==> NoneIdle(xs, maxfd, fds, cleanblock, now)
    ensures least != -1 ==> MostIdleAt(xs, maxfd, fds, cleanblock, now, least)
  {
  }

  /** One slot of a timeout-0 scan: an eligible entry idle longer than the
      leader so far becomes the leader. */
  method ConsiderIdle(xs: Table, maxfd: int, fds: set<int>, cleanblock: bool, now: TimeVal, i: int, least: int, tmax: TimeVal)
    returns (least': int, tmax': TimeVal)
    requires 0 <= i <= maxfd && i < |xs|
    requires Leader(xs, maxfd, fds, cleanblock, now, i, least, tmax)
    ensures Leader(xs, maxfd, fds, cleanblock, now, i + 1, least', tmax')
  {
    least', tmax' := least, tmax;
    if Eligible(xs, maxfd, fds, cleanblock, i) {
      var tdiff := TimerSub(now, xs[i].value.lastRecv);
      if TimerGt(tdiff, tmax) {
        least', tmax' := i, tdiff;
      }
    }
  }

  /** The slot the reaper is at still holds what it held when the pass
    began, so its verdict is the one the pass began with, and clearing
    it extends the reaped prefix by one. */
  lemma ReapSlot(xs: Table, maxfd: int, xs0: Table, fds: set<int>, timeout: int, cleanblock: bool, now: TimeVal, i: int)
    requires 0 <= i <= maxfd && |xs| == |xs0| && i < |xs0|
    requires xs == Reaped(xs0, maxfd, fds, cleanblock, now, timeout, i)
    ensures Expired(xs, maxfd, fds, cleanblock, now, timeout, i) <==> Expired(xs0, maxfd, fds, cleanblock, now, timeout, i)
    ensures Expired(xs0, maxfd, fds, cleanblock, now, timeout, i) ==>
      xs[i := None] == Reaped(xs0, maxfd, fds, cleanblock, now, timeout, i + 1)
    ensures !Expired(xs0, maxfd, fds, cleanblock, now, timeout, i) ==>
      xs == Reaped(xs0, maxfd, fds, cleanblock, now, timeout, i + 1)
  {
  }

  /** The table of registered transports (__svc_xports) and the highest
      descriptor registered (svc_maxfd). */
  class Registry {
    var xports: Table
    var maxfd: int

    ghost predicate Valid()
      reads this
    {
      -1 <= maxfd < |xports|
    }

    /** An empty table with `size` slots. */
    constructor (size: nat)
      ensures Valid() && |xports| == size && maxfd == -1
      ensures forall j :: 0 <= j < size ==> xports[j] == None
    {
      xports := seq(size, _ => None);
      maxfd := -1;
    }

    /** The descriptors of every registered transport (svc_fdset). */
    function Registered(): (fds: set<int>)
      reads this
      ensures forall j :: j in fds <==> 0 <= j < |xports| && xports[j].Some?
    {
      set j | 0 <= j < |xports| && xports[j].Some?
    }

    /** xprt_register as the accept path uses it: the slot holds the
      transport, and the highest descriptor is raised to cover it. */
    method Register(fd: int, e: Entry)
      requires Valid() && 0 <= fd < |xports|
      modifies this
      ensures Valid() && xports == old(xports)[fd := Some(e)]
      ensures maxfd == if fd > old(maxfd) then fd else old(maxfd)
    {
      xports := xports[fd := Some(e)];
      if fd > maxfd {
        maxfd := fd;
      }
    }

    /** __svc_clean_idle: with a positive (or negative) timeout, unregister
      and destroy every eligible connection idle for more whole seconds than
      the timeout; with timeout 0, the single most idle one. The result says
      whether anything was destroyed; `victim` is the entry a timeout-0
      pass destroyed. */
    method CleanIdle(fds: set<int>, timeout: int, cleanblock: bool, now: TimeVal) returns (cleaned: bool, ghost victim: Option<int>)
      requires Valid()
      modifies this
      ensures Valid() && maxfd == old(maxfd)
      ensures timeout != 0 ==> xports == Reaped(old(xports), maxfd, fds, cleanblock, now, timeout, |xports|)
      ensures timeout != 0 ==> (cleaned <==> exists j :: 0 <= j < |xports| && Expired(old(xports), maxfd, fds, cleanblock, now, timeout, j))
      ensures timeout == 0 && victim.Some? ==>
        MostIdleAt(old(xports), maxfd, fds, cleanblock, now, victim.value) && xports == old(xports)[victim.value := None]
      ensures timeout == 0 && victim.None? ==> NoneIdle(old(xports), maxfd, fds, cleanblock, now) && xports == old(xports)
      ensures timeout == 0 ==> (cleaned <==> victim.Some?)
    {
      ghost var xs0 := xports;
      var i := 0;
      var ncleaned := 0;
      var tmax := Zero;
      var least := -1;
      while i <= maxfd
        invariant maxfd == old(maxfd) && Valid() && 0 <= i <= maxfd + 1 && |xports| == |xs0|
        invariant timeout != 0 ==> xports == Reaped(xs0, maxfd, fds, cleanblock, now, timeout, i)
        invariant timeout != 0 ==> (ncleaned > 0 <==> exists j :: 0 <= j < i && Expired(xs0, maxfd, fds, cleanblock, now, timeout, j))
        invariant timeout == 0 ==> xports == xs0 && ncleaned == 0 && Leader(xs0, maxfd, fds, cleanblock, now, i, least, tmax)
      {
        if timeout == 0 {
          least, tmax := ConsiderIdle(xports, maxfd, fds, cleanblock, now, i, least, tmax);
        } else {
          ReapSlot(xports, maxfd, xs0, fds, timeout, cleanblock, now, i);
          if Expired(xports, maxfd, fds, cleanblock, now, timeout, i) {
            xports := xports[i := None];
            ncleaned := ncleaned + 1;
          }
        }
        i := i + 1;
      }
      if timeout == 0 {
        LeaderComplete(xs0, maxfd, fds, cleanblock, now, least, tmax);
      } else {
        assert Reaped(xs0, maxfd, fds, cleanblock, now, timeout, i) == Reaped(xs0, maxfd, fds, cleanblock, now, timeout, |xports|);
      }
      victim := None;
      if timeout == 0 && least != -1 {
        xports := xports[least := None];
        ncleaned := ncleaned + 1;
        victim := Some(least);
      }
      cleaned := ncleaned > 0;
    }

    /** rendezvous_request: accept (whose successive answers are
      `accepts`), retrying on EINTR and, on EMFILE or ENFILE, after reaping
      the most idle non-blocking connection among the registered ones; any
      other failure gives up. An accepted socket is
      registered as a connection configured from the listener, recording
      its peer's address (IPv4 peers in IPv4-mapped IPv6 form). There is
      never a call to dispatch, so the answer is always FALSE. */
    method RendezvousRequest(r: CfRendezvous, accepts: seq<AcceptResult>, now: TimeVal)
      returns (res: bool, conn: CfConn?, rtaddr: Option<SockAddr>)
      requires Valid()
      requires forall k :: 0 <= k < |accepts| && accepts[k].Accepted? ==>
        0 <= accepts[k].fd < |xports| && WellFormedAddr(accepts[k].peer)
      modifies this
      ensures Valid() && !res && |xports| == |old(xports)|
      ensures conn != null <==> Decisive(accepts).Some? && accepts[Decisive(accepts).value].Accepted?
      ensures conn != null ==>
        var a := accepts[Decisive(accepts).value];
        && fresh(conn)
        && xports[a.fd] == Some(Entry(StreamConnection, conn.nonblock, conn.lastRecvTime))
        && conn.strmStat == Idle && conn.sendsize == r.sendsize && conn.maxrec == r.maxrec
        && (conn.nonblock <==> r.maxrec != 0)
        && conn.recvsize == (if r.maxrec != 0 then ClampRecvsize(r.recvsize, r.maxrec) else r.recvsize)
        && conn.lastRecvTime == now
        && rtaddr == Some(RemoteAddr(a.peer))
      ensures conn == null ==> rtaddr == None
      ensures forall j :: 0 <= j < |xports| && xports[j] != old(xports)[j] ==>
        xports[j] == None || (conn != null && j == accepts[Decisive(accepts).value].fd)
    {
      var k := 0;
      conn, rtaddr := null, None;
      while k < |accepts|
        invariant 0 <= k <= |accepts| && Valid() && |xports| == |old(xports)|
        invariant Decisive(accepts) == Shifted(Decisive(accepts[k..]), k)
        invariant forall j :: 0 <= j < |xports| && xports[j] != old(xports)[j] ==> xports[j] == None
        decreases |accepts| - k
      {
        assert accepts[k..][1..] == accepts[k + 1..];
        var a := accepts[k];
        if a.Accepted? {
          conn := new CfConn.Accept(r, now);
          Register(a.fd, Entry(StreamConnection, conn.nonblock, conn.lastRecvTime));
          rtaddr := Some(RemoteAddr(a.peer));
          return false, conn, rtaddr;
        }
        if a.errno == EMFile || a.errno == ENFile {
          var fds := Registered();
          var _, _ := CleanIdle(fds, 0, false, now);
        } else if a.errno != EIntr {
          return false, null, None;
        }
        k := k + 1;
      }
      res := false;
    }
  }

  /** What one accept returns: a connected socket and its peer, or -1 with
      an errno. */
  datatype AcceptResult = Accepted(fd: int, peer: SockAddr) | AcceptFailed(errno: Errno)

  /** An index into a suffix, as an index into the whole. */
  function Shifted(o: Option<nat>, k: nat): (r: Option<nat>)
    ensures r.Some? <==> o.Some?
    ensures r.Some? ==> r.value == o.value + k
  {
    if o.Some? then Some(o.value + k) else None
  }

  /** An accept answer after which the accept loop tries again: EINTR, or
      EMFILE or ENFILE (after an idle sweep). */
  predicate Retried(a: AcceptResult)
  {
    a.AcceptFailed? && a.errno in {EIntr, EMFile, ENFile}
  }

  /** The accept answer that ends the accept loop (see DecisiveFirst). */
  function Decisive(accepts: seq<AcceptResult>): (r: Option<nat>)
    ensures r.Some? ==> r.value < |accepts|
  {
    if accepts == [] then None
    else if Retried(accepts[0]) then
      Shifted(Decisive(accepts[1..]), 1)
    else Some(0)
  }

  /** The answer that ends the accept loop is the first that is a socket or
      a failure other than EINTR, EMFILE and ENFILE; there is none exactly
      when every answer makes the loop try again. */
  lemma {:induction false} DecisiveFirst(accepts: seq<AcceptResult>)
    ensures var r := Decisive(accepts);
      && (r.Some? ==> !Retried(accepts[r.value]))
      && (r.Some? ==> forall k :: 0 <= k < r.value ==> Retried(accepts[k]))
      && (r.None? <==> forall k :: 0 <= k < |accepts| ==> Retried(accepts[k]))
  {
    if accepts != [] && Retried(accepts[0]) {
      DecisiveFirst(accepts[1..]);
      forall k | 1 <= k < |accepts|
        ensures accepts[k] == accepts[1..][k - 1]
      {
      }
    }
  }
}
