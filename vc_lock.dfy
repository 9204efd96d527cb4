/** The per-descriptor lock records of vc_lock.h: the comparator that
    orders the descriptor index, the lazy binding of a client to its record,
    and the flag protocol of lock, unlock and wait, with the signal mask the
    locker runs under. The mutex and condition variable are treated as
    atomic steps; what other threads do while a caller waits is given as
    the successive flag values the caller sees when it wakes. */
module VcLock {
  import opened Common

  const FlagClear: int := 0
  const LockValue: int := 1

  /** Signal numbers run from 1 to 64; SIGINT is 2. */
  const SigMax: nat := 64
  const SigInt: nat := 2

  /** The signal numbers from lo to hi. */
  function SignalRange(lo: nat, hi: nat): (r: set<nat>)
    ensures forall s :: s in r <==> lo <= s <= hi
    decreases hi + 1 - lo
  {
    if lo > hi then {} else {lo} + SignalRange(lo + 1, hi)
  }

  /** The mask a locker asks for (sigfillset, then sigdelset of SIGINT):
      every signal but SIGINT. This is the mask requested, not the one in
      effect: the kernel never blocks SIGKILL or SIGSTOP, and the C library's
      sigfillset may leave out signals it reserves for itself. */
  function LockMask(): (m: set<nat>)
    ensures SigInt !in m
    ensures forall s :: 1 <= s <= SigMax && s != SigInt ==> s in m
    ensures forall s :: s in m ==> 1 <= s <= SigMax
  {
    SignalRange(1, SigMax) - {SigInt}
  }

  /** fd_cmpf: the order of two records in the index, by descriptor. */
  function FdCmp(lk: int, rk: int): (c: int)
    ensures c == -1 || c == 0 || c == 1
    ensures c == -1 <==> lk < rk
    ensures c == 0 <==> lk == rk
    ensures c == 1 <==> lk > rk
  {
    if lk < rk then -1 else if lk == rk then 0 else 1
  }

  /** The comparator is antisymmetric and transitive: a total order on
      descriptors, as a search tree needs. */
  lemma FdCmpIsOrder(a: int, b: int, c: int)
    ensures FdCmp(a, b) == -FdCmp(b, a)
    ensures FdCmp(a, a) == 0
    ensures FdCmp(a, b) <= 0 && FdCmp(b, c) <= 0 ==> FdCmp(a, c) <= 0
    ensures FdCmp(a, b) < 0 && FdCmp(b, c) < 0 ==> FdCmp(a, c) < 0
  {
  }

  /** The number of wake-ups a waiter goes through before it sees the flag
      clear, starting from `flag` and seeing `wakeups` on successive
      wake-ups; None when it is still waiting after the last of them. */
  function WaitEnds(flag: int, wakeups: seq<int>): (r: Option<nat>)
    decreases |wakeups|
    ensures r.Some? ==> r.value <= |wakeups|
    ensures r.Some? ==> (if r.value == 0 then flag else wakeups[r.value - 1]) == FlagClear
    ensures r.Some? && r.value > 0 ==> flag != FlagClear
    ensures r.Some? ==> forall k :: 0 <= k < r.value - 1 ==> wakeups[k] != FlagClear
    ensures r.None? <==> flag != FlagClear && forall k :: 0 <= k < |wakeups| ==> wakeups[k] != FlagClear
  {
    if flag == FlagClear then Some(0)
    else if wakeups == [] then None
    else
      var rest := WaitEnds(wakeups[0], wakeups[1..]);
      assert forall k :: 1 <= k < |wakeups| ==> wakeups[k] == wakeups[1..][k - 1];
      if rest.Some? then Some(rest.value + 1) else None
  }

  /** A lock record (struct vc_fd_rec): its descriptor key and its flag. */
  class VcFdRec {
    const fdK: int
    var lockFlag: int

    constructor (fd: int)
      ensures fdK == fd && lockFlag == FlagClear
    {
      fdK := fd;
      lockFlag := FlagClear;
    }
  }

  /** The index of lock records, keyed by descriptor. */
  class FdIndex {
    var recs: map<int, VcFdRec>

    ghost predicate Valid()
      reads this
    {
      forall fd :: fd in recs ==> recs[fd].fdK == fd
    }

    constructor ()
      ensures Valid() && recs == map[]
    {
      recs := map[];
    }

    /** vc_lookup_fd_rec: the record of a descriptor, made (clear) the first
      time the descriptor is looked up. */
    method Lookup(fd: int) returns (rec: VcFdRec)
      requires Valid()
      modifies this
      ensures Valid() && fd in recs && recs[fd] == rec && rec.fdK == fd
      ensures fd in old(recs) ==> recs == old(recs) && rec == old(recs[fd])
      ensures fd !in old(recs) ==> fresh(rec) && rec.lockFlag == FlagClear && recs == old(recs)[fd := rec]
    {
      if fd in recs {
        rec := recs[fd];
      } else {
        rec := new VcFdRec(fd);
        recs := recs[fd := rec];
      }
    }
  }

  /** The calling thread's signal mask. */
  class SigMask {
    var mask: set<nat>

    constructor (mask: set<nat>)
      ensures this.mask == mask
    {
      this.mask := mask;
    }
  }

  /** A stream client's private data (struct ct_data), as far as locking
      goes: its descriptor and its lock record, once bound. */
  class CtData {
    const ctFd: int
    var ctCrec: VcFdRec?

    constructor (fd: int)
      ensures ctFd == fd && ctCrec == null
    {
      ctFd := fd;
      ctCrec := null;
    }
  }

  /** The client's record, when bound, is the one the index holds for its
      descriptor. */
  ghost predicate BoundThrough(ct: CtData, idx: FdIndex)
    reads ct, idx
  {
    ct.ctCrec != null ==> ct.ctFd in idx.recs && idx.recs[ct.ctFd] == ct.ctCrec
  }

  /** vc_lock_init_cl: bind the client to its descriptor's record, unless
      it is bound already, in which case nothing changes. */
  method InitCl(ct: CtData, idx: FdIndex)
    requires idx.Valid()
    modifies ct, idx
    ensures idx.Valid() && ct.ctCrec != null
    ensures old(ct.ctCrec) != null ==> ct.ctCrec == old(ct.ctCrec) && idx.recs == old(idx.recs)
    ensures old(ct.ctCrec) == null ==> ct.ctFd in idx.recs && ct.ctCrec == idx.recs[ct.ctFd]
    ensures old(ct.ctCrec) == null && ct.ctFd in old(idx.recs) ==> idx.recs == old(idx.recs)
    ensures old(ct.ctCrec) == null && ct.ctFd !in old(idx.recs) ==> fresh(ct.ctCrec) && ct.ctCrec.lockFlag == FlagClear
    ensures forall fd :: fd in old(idx.recs) ==> fd in idx.recs && idx.recs[fd] == old(idx.recs[fd])
    ensures old(BoundThrough(ct, idx)) ==> BoundThrough(ct, idx)
    ensures old(ct.ctCrec) == null ==> idx.recs == old(idx.recs)[ct.ctFd := ct.ctCrec]
  {
    if ct.ctCrec == null {
      ct.ctCrec := idx.Lookup(ct.ctFd);
    }
  }

  /** The wait loop shared by lock and wait (`wakeups` are the flag values
      seen on successive wake-ups): it ends once the flag is seen clear;
      if it is never seen clear, the caller is still waiting, and the flag
      is the last value seen. */
  method AwaitClear(crec: VcFdRec, wakeups: seq<int>) returns (ready: bool)
    modifies crec
    ensures ready <==> WaitEnds(old(crec.lockFlag), wakeups).Some?
    ensures ready ==> crec.lockFlag == FlagClear
    ensures !ready ==> crec.lockFlag == if wakeups == [] then old(crec.lockFlag) else wakeups[|wakeups| - 1]
  {
    var k := 0;
    while crec.lockFlag != FlagClear && k < |wakeups|
      invariant 0 <= k <= |wakeups|
      invariant WaitEnds(old(crec.lockFlag), wakeups).Some? <==> WaitEnds(crec.lockFlag, wakeups[k..]).Some?
      invariant crec.lockFlag == if k == 0 then old(crec.lockFlag) else wakeups[k - 1]
      decreases |wakeups| - k
    {
      assert wakeups[k..][1..] == wakeups[k + 1..];
      crec.lockFlag := wakeups[k];
      k := k + 1;
    }
    ready := crec.lockFlag == FlagClear;
  }

  /** The wait loop of vc_fd_lock_c followed by taking the lock: the flag
      is set to the lock value once it is seen clear. */
  method Acquire(crec: VcFdRec, wakeups: seq<int>) returns (acquired: bool)
    modifies crec
    ensures acquired <==> WaitEnds(old(crec.lockFlag), wakeups).Some?
    ensures acquired ==> crec.lockFlag == LockValue
    ensures !acquired ==> crec.lockFlag != FlagClear
  {
    acquired := AwaitClear(crec, wakeups);
    if acquired {
      crec.lockFlag := LockValue;
    }
  }

  /** vc_fd_lock_c: bind the client to its record, block every signal but
      SIGINT (returning the mask it replaced), then wait for the flag to
      clear and take it. `th.mask` is the mask requested by
      pthread_sigmask (see LockMask), not the set the kernel blocks. */
  method LockC(ct: CtData, idx: FdIndex, th: SigMask, wakeups: seq<int>) returns (acquired: bool, saved: set<nat>)
    requires idx.Valid()
    modifies ct, idx, th, idx.recs.Values, ct.ctCrec
    ensures idx.Valid() && ct.ctCrec != null
    ensures saved == old(th.mask) && th.mask == LockMask()
    ensures old(ct.ctCrec) != null ==> ct.ctCrec == old(ct.ctCrec)
    ensures old(ct.ctCrec) == null ==> ct.ctFd in idx.recs && ct.ctCrec == idx.recs[ct.ctFd]
    ensures old(ct.ctCrec) != null ==> (acquired <==> WaitEnds(old(ct.ctCrec.lockFlag), wakeups).Some?)
    ensures old(ct.ctCrec) == null && ct.ctFd in old(idx.recs) ==>
      (acquired <==> WaitEnds(old(idx.recs[ct.ctFd].lockFlag), wakeups).Some?)
    ensures old(ct.ctCrec) == null && ct.ctFd !in old(idx.recs) ==> acquired
    ensures acquired ==> ct.ctCrec.lockFlag == LockValue
    ensures !acquired ==> ct.ctCrec.lockFlag != FlagClear
    ensures old(BoundThrough(ct, idx)) ==> BoundThrough(ct, idx)
    ensures old(ct.ctCrec) == null && ct.ctFd !in old(idx.recs) ==> fresh(ct.ctCrec)
    ensures old(ct.ctCrec) != null ==> idx.recs == old(idx.recs)
    ensures old(ct.ctCrec) == null ==> idx.recs == old(idx.recs)[ct.ctFd := ct.ctCrec]
    ensures forall f :: f in old(idx.recs) ==> f in idx.recs && idx.recs[f] == old(idx.recs[f])
    ensures forall x :: x in old(idx.recs.Values) && x != ct.ctCrec ==> x.lockFlag == old(x.lockFlag)
  {
    InitCl(ct, idx);
    var crec := ct.ctCrec;
    saved := th.mask;
    th.mask := LockMask();
    acquired := Acquire(crec, wakeups);
  }

  /** vc_fd_unlock_c: clear the flag and restore the caller's mask. */
  method UnlockC(ct: CtData, th: SigMask, saved: set<nat>)
    requires ct.ctCrec != null
    modifies ct.ctCrec, th
    ensures ct.ctCrec.lockFlag == FlagClear && th.mask == saved
  {
    ct.ctCrec.lockFlag := FlagClear;
    th.mask := saved;
  }

  /** vc_fd_wait_c: bind the client to its record and wait until the flag
      is seen clear; the waiter itself never writes the flag. */
  method WaitC(ct: CtData, idx: FdIndex, wakeups: seq<int>) returns (ready: bool)
    requires idx.Valid()
    modifies ct, idx, idx.recs.Values, ct.ctCrec
    ensures idx.Valid() && ct.ctCrec != null
    ensures old(ct.ctCrec) != null ==> ct.ctCrec == old(ct.ctCrec)
    ensures old(ct.ctCrec) == null ==> ct.ctFd in idx.recs && ct.ctCrec == idx.recs[ct.ctFd]
    ensures old(ct.ctCrec) != null ==> (ready <==> WaitEnds(old(ct.ctCrec.lockFlag), wakeups).Some?)
    ensures old(ct.ctCrec) == null && ct.ctFd in old(idx.recs) ==>
      (ready <==> WaitEnds(old(idx.recs[ct.ctFd].lockFlag), wakeups).Some?)
    ensures old(ct.ctCrec) == null && ct.ctFd !in old(idx.recs) ==> ready
    ensures ready ==> ct.ctCrec.lockFlag == FlagClear
    ensures !ready ==> ct.ctCrec.lockFlag != FlagClear
    ensures !ready && wakeups != [] ==> ct.ctCrec.lockFlag == wakeups[|wakeups| - 1]
    ensures old(BoundThrough(ct, idx)) ==> BoundThrough(ct, idx)
    ensures old(ct.ctCrec) == null && ct.ctFd !in old(idx.recs) ==> fresh(ct.ctCrec)
    ensures old(ct.ctCrec) != null ==> idx.recs == old(idx.recs)
    ensures old(ct.ctCrec) == null ==> idx.recs == old(idx.recs)[ct.ctFd := ct.ctCrec]
    ensures forall f :: f in old(idx.recs) ==> f in idx.recs && idx.recs[f] == old(idx.recs[f])
    ensures forall x :: x in old(idx.recs.Values) && x != ct.ctCrec ==> x.lockFlag == old(x.lockFlag)
  {
    InitCl(ct, idx);
    ready := AwaitClear(ct.ctCrec, wakeups);
  }

  /** A server transport, as far as locking goes: its descriptor and its
      duplex client, if it has one (xp_p4). */
  class SvcXprt {
    const xpFd: int
    const xpP4: CtData?

    constructor (fd: int, p4: CtData?)
      ensures xpFd == fd && xpP4 == p4
    {
      xpFd := fd;
      xpP4 := p4;
    }
  }

  /** vc_fd_lock (declared in vc_lock.h, defined elsewhere), modelled as
      the same protocol on the descriptor's record in the index. */
  method LockFd(fd: int, idx: FdIndex, th: SigMask, wakeups: seq<int>) returns (acquired: bool, saved: set<nat>, rec: VcFdRec)
    requires idx.Valid()
    modifies idx, th, idx.recs.Values
    ensures idx.Valid() && fd in idx.recs && rec == idx.recs[fd]
    ensures forall f :: f in old(idx.recs) ==> f in idx.recs && idx.recs[f] == old(idx.recs[f])
    ensures saved == old(th.mask) && th.mask == LockMask()
    ensures acquired <==> (fd !in old(idx.recs) || WaitEnds(old(idx.recs[fd].lockFlag), wakeups).Some?)
    ensures acquired ==> rec.lockFlag == LockValue
    ensures fd !in old(idx.recs) ==> fresh(rec)
    ensures idx.recs == old(idx.recs)[fd := rec]
    ensures forall x :: x in old(idx.recs.Values) && x != rec ==> x.lockFlag == old(x.lockFlag)
  {
    rec := idx.Lookup(fd);
    saved := th.mask;
    th.mask := LockMask();
    acquired := Acquire(rec, wakeups);
  }

  /** vc_fd_lock_x: lock through the duplex client when there is one,
      through the descriptor's record otherwise. `rec` is the record that
      was locked. When the duplex client is bound through the index to the
      transport's own descriptor, both routes lock the same record. */
  method LockX(xprt: SvcXprt, idx: FdIndex, th: SigMask, wakeups: seq<int>) returns (acquired: bool, saved: set<nat>, rec: VcFdRec)
    requires idx.Valid()
    requires xprt.xpP4 != null ==> BoundThrough(xprt.xpP4, idx)
    modifies idx, th, idx.recs.Values, xprt.xpP4, if xprt.xpP4 != null then xprt.xpP4.ctCrec else null
    ensures idx.Valid() && saved == old(th.mask) && th.mask == LockMask()
    ensures xprt.xpP4 != null ==> rec == xprt.xpP4.ctCrec && BoundThrough(xprt.xpP4, idx)
    ensures xprt.xpP4 == null ==> xprt.xpFd in idx.recs && rec == idx.recs[xprt.xpFd]
    ensures xprt.xpP4 != null && xprt.xpP4.ctFd == xprt.xpFd ==> xprt.xpFd in idx.recs && rec == idx.recs[xprt.xpFd]
    ensures acquired ==> rec.lockFlag == LockValue
    ensures xprt.xpP4 == null ==> idx.recs == old(idx.recs)[xprt.xpFd := rec]
    ensures xprt.xpP4 != null && old(xprt.xpP4.ctCrec) != null ==> idx.recs == old(idx.recs)
    ensures xprt.xpP4 != null && old(xprt.xpP4.ctCrec) == null ==> idx.recs == old(idx.recs)[xprt.xpP4.ctFd := rec]
    ensures xprt.xpP4 == null && xprt.xpFd !in old(idx.recs) ==> fresh(rec)
    ensures xprt.xpP4 != null && old(xprt.xpP4.ctCrec) == null && xprt.xpP4.ctFd !in old(idx.recs) ==> fresh(rec)
    ensures forall f :: f in old(idx.recs) ==> f in idx.recs && idx.recs[f] == old(idx.recs[f])
    ensures forall x :: x in old(idx.recs.Values) && x != rec ==> x.lockFlag == old(x.lockFlag)
  {
    if xprt.xpP4 != null {
      acquired, saved := LockC(xprt.xpP4, idx, th, wakeups);
      rec := xprt.xpP4.ctCrec;
    } else {
      acquired, saved, rec := LockFd(xprt.xpFd, idx, th, wakeups);
    }
  }

  /** vc_fd_unlock_x: unlock the record LockX chose. */
  method UnlockX(xprt: SvcXprt, idx: FdIndex, th: SigMask, saved: set<nat>) returns (rec: VcFdRec)
    requires idx.Valid()
    requires xprt.xpP4 != null ==> xprt.xpP4.ctCrec != null
    modifies idx, th, idx.recs.Values, if xprt.xpP4 != null then xprt.xpP4.ctCrec else null
    ensures idx.Valid() && th.mask == saved && rec.lockFlag == FlagClear
    ensures xprt.xpP4 != null ==> rec == xprt.xpP4.ctCrec
    ensures xprt.xpP4 == null ==> xprt.xpFd in idx.recs && rec == idx.recs[xprt.xpFd]
    ensures xprt.xpP4 == null && xprt.xpFd !in old(idx.recs) ==> fresh(rec)
    ensures xprt.xpP4 == null ==> idx.recs == old(idx.recs)[xprt.xpFd := rec]
    ensures xprt.xpP4 != null ==> idx.recs == old(idx.recs)
    ensures forall f :: f in old(idx.recs) ==> f in idx.recs && idx.recs[f] == old(idx.recs[f])
    ensures forall x :: x in old(idx.recs.Values) && x != rec ==> x.lockFlag == old(x.lockFlag)
  {
    if xprt.xpP4 != null {
      rec := xprt.xpP4.ctCrec;
      UnlockC(xprt.xpP4, th, saved);
    } else {
      rec := idx.Lookup(xprt.xpFd);
      rec.lockFlag := FlagClear;
      th.mask := saved;
    }
  }
}
