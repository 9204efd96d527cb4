/** The connection-oriented server transport of svc_vc.c: the private state
    of a listening (rendezvous) transport and of an accepted connection, the
    status each reports, the control requests, how a read on the socket is
    classified, how a call's xid is kept for its reply, the IPv4-mapped
    address of an IPv4 peer, and the order in which a transport is torn
    down. */
module StreamConn {
  import opened Common

  type u16 = x: int | 0 <= x < 0x1_0000
  type u32 = x: int | 0 <= x < 0x1_0000_0000
  type i32 = x: int | -0x8000_0000 <= x < 0x8000_0000

  /** The two kinds of stream transport; each has its own operations table. */
  datatype Role = Rendezvous | Connection

  datatype XprtStat = Died | MoreReqs | Idle

  /** A struct timeval. */
  datatype TimeVal = TimeVal(sec: int, usec: int)

  /** The port field a transport is created with: all ones for the listener
      ((u_short)-1), zero for a connection. */
  function PortOf(role: Role): (p: u16)
    ensures p != 0 <==> role == Rendezvous
  {
    if role == Rendezvous then 0xffff else 0
  }

  // ---------------------------------------------------------------------
  // Status

  /** svc_vc_stat: a connection marked dead reports it; otherwise it has
      more requests exactly when the record codec is not at the end of its
      input. */
  function ConnStat(strmStat: XprtStat, eof: bool): (s: XprtStat)
    ensures s == Died <==> strmStat == Died
    ensures s == MoreReqs <==> strmStat != Died && !eof
    ensures s == Idle <==> strmStat != Died && eof
  {
    if strmStat == Died then Died
    else if !eof then MoreReqs
    else Idle
  }

  /** The xp_stat entry of each operations table: rendezvous_stat always
      reports idle, a connection reports through svc_vc_stat. */
  function Stat(role: Role, strmStat: XprtStat, eof: bool): (s: XprtStat)
    ensures role == Rendezvous ==> s == Idle
    ensures role == Connection ==> s == ConnStat(strmStat, eof)
  {
    match role
    case Rendezvous => Idle
    case Connection => ConnStat(strmStat, eof)
  }

  /** A listener never reports a dead or busy stream, whatever its state. */
  lemma RendezvousAlwaysIdle(strmStat: XprtStat, eof: bool)
    ensures Stat(Rendezvous, strmStat, eof) == Idle
    ensures Stat(Connection, strmStat, eof) == Idle ==> strmStat != Died
  {
  }

  // ---------------------------------------------------------------------
  // Control

  /** The requests of svc_control a stream transport can receive. */
  datatype ControlRequest = GetConnMaxrec | SetConnMaxrec | OtherRequest(rq: u32)

  /** svc_vc_control, the connection's control entry: it accepts nothing. */
  function ConnControl(rq: ControlRequest): (ok: bool)
    ensures !ok
  {
    false
  }

  /** The outcome of svc_vc_rendezvous_control on a listener whose maxrec is
      `maxrec`, with `arg` the int the caller's pointer holds: whether it
      succeeded, the listener's maxrec afterwards, and the int the caller's
      pointer holds afterwards. */
  function RendezvousControlSpec(maxrec: i32, rq: ControlRequest, arg: i32): (r: (bool, i32, i32))
  {
    match rq
    case GetConnMaxrec => (true, maxrec, maxrec)
    case SetConnMaxrec => (true, arg, arg)
    case OtherRequest(_) => (false, maxrec, arg)
  }

  /** Setting the connection maxrec and then reading it gives back the value
      set; an unknown request changes nothing and fails. */
  lemma SetThenGet(maxrec: i32, v: i32, other: u32, arg: i32)
    ensures var (ok1, m1, _) := RendezvousControlSpec(maxrec, SetConnMaxrec, v);
      var (ok2, m2, got) := RendezvousControlSpec(m1, GetConnMaxrec, arg);
      ok1 && ok2 && got == v && m2 == v
    ensures RendezvousControlSpec(maxrec, OtherRequest(other), arg) == (false, maxrec, arg)
  {
  }

  /** cf_rendezvous: the listener's configuration for the connections it
      accepts. */
  class CfRendezvous {
    var sendsize: u32
    var recvsize: u32
    var maxrec: i32

    constructor (sendsize: u32, recvsize: u32, maxrec: i32)
      ensures this.sendsize == sendsize && this.recvsize == recvsize && this.maxrec == maxrec
    {
      this.sendsize, this.recvsize, this.maxrec := sendsize, recvsize, maxrec;
    }
  }

  /** svc_vc_rendezvous_control: a listener without private state refuses
      every request; otherwise SVCGET_CONNMAXREC reads maxrec,
      SVCSET_CONNMAXREC writes it, and any other request fails. */
  method RendezvousControl(cfp: CfRendezvous?, rq: ControlRequest, arg: i32) returns (ok: bool, out: i32)
    modifies cfp
    ensures cfp == null ==> !ok && out == arg
    ensures cfp != null ==> (ok, cfp.maxrec, out) == RendezvousControlSpec(old(cfp.maxrec), rq, arg)
    ensures cfp != null ==> cfp.sendsize == old(cfp.sendsize) && cfp.recvsize == old(cfp.recvsize)
  {
    if cfp == null {
      return false, arg;
    }
    out := arg;
    match rq {
      case GetConnMaxrec =>
        out := cfp.maxrec;
      case SetConnMaxrec =>
        cfp.maxrec := arg;
      case OtherRequest(_) =>
        return false, out;
    }
    ok := true;
  }

  // ---------------------------------------------------------------------
  // Accepting a connection

  /** An int read as a u_int, as C converts it in `recvsize > maxrec` and in
      `recvsize = maxrec`. */
  function AsUnsigned(x: i32): (u: u32)
    ensures x >= 0 ==> u == x
    ensures x < 0 ==> u == x + 0x1_0000_0000
  {
    if x < 0 then x + 0x1_0000_0000 else x
  }

  /** The receive size of a non-blocking connection: the inherited one, cut
      to maxrec when larger, the comparison being unsigned. */
  function ClampRecvsize(recvsize: u32, maxrec: i32): (r: u32)
    ensures r <= recvsize && r <= AsUnsigned(maxrec)
    ensures r == recvsize || r == AsUnsigned(maxrec)
    ensures maxrec > 0 ==> r <= maxrec
  {
    if recvsize > AsUnsigned(maxrec) then AsUnsigned(maxrec) else recvsize
  }

  /** A socket address as accept reports it. Ports and addresses are kept
      in network byte order, as bytes. */
  datatype SockAddr =
    | In4(port4: u16, addr4: seq<byte>)
    | In6(port6: u16, addr6: seq<byte>)
    | Local(path: seq<byte>)  // the sun_path bytes accept reports, terminating NUL included

  predicate WellFormedAddr(a: SockAddr)
  {
    match a
    case In4(_, addr) => |addr| == 4
    case In6(_, addr) => |addr| == 16
    case Local(_) => true
  }

  /** The prefix of an IPv4-mapped IPv6 address, ::ffff:0:0/96 (section
      2.5.5.2 of RFC 4291): ten zero bytes, then two bytes of ones. */
  function MappedPrefix(): (p: seq<byte>)
    ensures |p| == 12
  {
    [0, 0, 0, 0, 0, 0, 0, 0, 0, 0, 0xff, 0xff]
  }

  /** map_ipv4_to_ipv6: an AF_INET6 address with the same port, address
      words 0 and 1 zero, word 2 htonl(0xffff) and word 3 the IPv4 address
      as it was stored. */
  function MapIpv4ToIpv6(port: u16, addr: seq<byte>): (r: SockAddr)
    requires |addr| == 4
    ensures r.In6? && r.port6 == port && WellFormedAddr(r)
    ensures r.addr6[..12] == MappedPrefix() && r.addr6[12..] == addr
  {
    In6(port, MappedPrefix() + addr)
  }

  /** The IPv4 address an IPv4-mapped IPv6 address carries, if it is one. */
  function MappedIpv4(a: SockAddr): (r: Option<(u16, seq<byte>)>)
    requires WellFormedAddr(a)
  {
    if a.In6? && a.addr6[..12] == MappedPrefix() then Some((a.port6, a.addr6[12..])) else None
  }

  /** The mapping is undone by reading the last four bytes, and every
      mapped address comes from exactly one IPv4 address and port. */
  lemma MapIpv4RoundTrip(port: u16, addr: seq<byte>)
    requires |addr| == 4
    ensures MappedIpv4(MapIpv4ToIpv6(port, addr)) == Some((port, addr))
  {
  }

  lemma MappedIpv4Complete(a: SockAddr)
    requires WellFormedAddr(a) && MappedIpv4(a).Some?
    ensures var (port, addr) := MappedIpv4(a).value; |addr| == 4 && MapIpv4ToIpv6(port, addr) == a
  {
    var (port, addr) := MappedIpv4(a).value;
    assert a.addr6 == a.addr6[..12] + a.addr6[12..];
  }

  lemma MapIpv4Injective(p1: u16, a1: seq<byte>, p2: u16, a2: seq<byte>)
    requires |a1| == 4 && |a2| == 4
    requires MapIpv4ToIpv6(p1, a1) == MapIpv4ToIpv6(p2, a2)
    ensures p1 == p2 && a1 == a2
  {
    MapIpv4RoundTrip(p1, a1);
    MapIpv4RoundTrip(p2, a2);
  }

  /** sizeof(struct sockaddr_in6): family, port, flow label, address and
      scope id. */
  const Sockaddr6Size: nat := 28

  /** The length accept reports for an address: sockaddr_in, sockaddr_in6,
      or the two-byte family followed by the sun_path bytes of an AF_LOCAL
      address, which for a pathname address count its terminating NUL. */
  function AddrLen(a: SockAddr): (n: nat)
    ensures a.In4? ==> n < Sockaddr6Size
    ensures a.In6? ==> n == Sockaddr6Size
    ensures a.Local? ==> n == 2 + |a.path|
  {
    match a
    case In4(_, _) => 16
    case In6(_, _) => Sockaddr6Size
    case Local(path) => 2 + |path|
  }

  /** The remote address an accepted connection records, and its length:
      an IPv4 peer in its IPv4-mapped IPv6 form with the length of a
      sockaddr_in6, any other address as accept gave it, with accept's
      length. This is the intended behaviour; the code as written copies
      non-IPv4 addresses through a sockaddr_in6 (RemoteAddrAsWritten). */
  function RemoteAddr(a: SockAddr): (r: SockAddr)
    requires WellFormedAddr(a)
    ensures WellFormedAddr(r) && !r.In4?
    ensures a.In4? ==> MappedIpv4(r) == Some((a.port4, a.addr4))
    ensures !a.In4? ==> r == a
    ensures AddrLen(r) == if a.In4? then Sockaddr6Size else AddrLen(a)
  {
    if a.In4? then
      MapIpv4RoundTrip(a.port4, a.addr4);
      MapIpv4ToIpv6(a.port4, a.addr4)
    else a
  }

  /** The recording as written: a non-IPv4 address is copied, with accept's
      length, into a sockaddr_in6 on the stack and from there into the
      recorded buffer. None stands for an address longer than that
      variable, whose copy overruns it (undefined behaviour in C). */
  function RemoteAddrAsWritten(a: SockAddr): (r: Option<SockAddr>)
    requires WellFormedAddr(a)
    ensures r.None? <==> !a.In4? && AddrLen(a) > Sockaddr6Size
    ensures r.Some? ==> r.value == RemoteAddr(a)
  {
    if !a.In4? && AddrLen(a) > Sockaddr6Size then None else Some(RemoteAddr(a))
  }

  /** Only AF_LOCAL addresses can overrun: the as-written recording agrees
      with the intended one on every IPv4 and IPv6 peer and on local
      addresses of at most 26 sun_path bytes, and fails on every longer one,
      such as the 26-character path below, which with its NUL is 27 bytes,
      so that accept reports 29. */
  lemma LocalPathOverrunsSin6(a: SockAddr)
    requires WellFormedAddr(a)
    ensures !a.Local? ==> RemoteAddrAsWritten(a) == Some(RemoteAddr(a))
    ensures a.Local? ==> (RemoteAddrAsWritten(a).None? <==> |a.path| > Sockaddr6Size - 2)
    ensures var long := Local(seq(26, _ => 0x61) + [0]);
      AddrLen(long) == 29 && RemoteAddrAsWritten(long).None? && RemoteAddr(long) == long
  {
  }

  // ---------------------------------------------------------------------
  // Reading

  datatype Errno = EAgain | EIntr | EMFile | ENFile | OtherErrno(code: nat)

  /** What read returns: a byte count (0 at end of stream), or -1 with an
      errno. */
  datatype ReadOutcome = Bytes(n: nat) | ReadError(errno: Errno)

  /** What one poll for input returns: -1 with an errno, 0 after the 35
      second timeout, or a ready descriptor whose events may or may not
      include POLLIN. */
  datatype PollOutcome = PollError(errno: Errno) | PollTimeout | PollReady(pollin: bool)

  /** A poll answer after which the wait goes on: an interrupted poll, or a
      ready descriptor without POLLIN. */
  predicate KeepsWaiting(p: PollOutcome)
  {
    p == PollError(EIntr) || p == PollReady(false)
  }

  /** The poll wait of a blocking read over the answers of successive
      polls: Some(true) once input is ready, Some(false) when the wait is
      fatal (an error other than EINTR, or the timeout), None when the
      answers run out while still waiting. */
  function PollWait(polls: seq<PollOutcome>): (r: Option<bool>)
    ensures r == None <==> forall k :: 0 <= k < |polls| ==> KeepsWaiting(polls[k])
  {
    if polls == [] then None
    else match polls[0]
      case PollError(e) => if e == EIntr then PollWait(polls[1..]) else Some(false)
      case PollTimeout => Some(false)
      case PollReady(pollin) => if pollin then Some(true) else PollWait(polls[1..])
  }

  /** The result of one read_vc call; StillWaiting when the poll answers
      ran out inside the poll loop. */
  datatype ReadVcResult = Returned(len: int) | StillWaiting

  /** How read_vc classifies a read: a non-blocking socket returns what was
      read, 0 for EAGAIN, and fails on any other error; a blocking socket
      waits for input and fails on a wait that is fatal or a read of zero
      bytes or an error. */
  function ReadVcSpec(nonblock: bool, polls: seq<PollOutcome>, rd: ReadOutcome): (r: ReadVcResult)
    ensures r.Returned? && r.len > 0 ==> rd == Bytes(r.len)
    ensures r.Returned? ==> r.len >= -1
    ensures nonblock ==> r.Returned?
    ensures !nonblock && r.Returned? ==> r.len != 0
    ensures r == Returned(0) ==> nonblock && (rd == Bytes(0) || rd == ReadError(EAgain))
  {
    if nonblock then
      match rd
      case Bytes(n) => Returned(n)
      case ReadError(e) => if e == EAgain then Returned(0) else Returned(-1)
    else
      match PollWait(polls)
      case None => StillWaiting
      case Some(ready) =>
        if !ready then Returned(-1)
        else if rd.Bytes? && rd.n > 0 then Returned(rd.n)
        else Returned(-1)
  }

  /** The wait is decided by the first answer that does not keep it
      waiting: it ends ready exactly when that answer is a ready descriptor
      with POLLIN, and fatally when it is the timeout or an error other
      than EINTR. */
  lemma {:induction false} PollWaitFirstDecisive(polls: seq<PollOutcome>, k: nat)
    requires k < |polls| && !KeepsWaiting(polls[k])
    requires forall j :: 0 <= j < k ==> KeepsWaiting(polls[j])
    ensures PollWait(polls) == Some(polls[k] == PollReady(true))
    ensures PollWait(polls) == Some(false) <==> polls[k] == PollTimeout || (polls[k].PollError? && polls[k].errno != EIntr)
  {
    if k > 0 {
      assert KeepsWaiting(polls[0]);
      forall j | 0 <= j < k - 1
        ensures KeepsWaiting(polls[1..][j])
      {
        assert polls[1..][j] == polls[j + 1];
      }
      PollWaitFirstDecisive(polls[1..], k - 1);
    }
  }

  /** Progress, no progress or death: the ways a read can end. A
      non-blocking read returns the byte count, 0 included, 0 for EAGAIN
      and -1 for any other error; a blocking read returns -1 after a fatal
      wait, the byte count after a read of at least one byte, -1 after a
      read of zero bytes or an error, and does not return while the poll
      answers keep it waiting. */
  lemma ReadClassification(nonblock: bool, polls: seq<PollOutcome>, rd: ReadOutcome)
    ensures var r := ReadVcSpec(nonblock, polls, rd);
      r.Returned? ==> (r.len > 0 || r.len == 0 || r.len == -1)
    ensures nonblock && rd.Bytes? ==> ReadVcSpec(nonblock, polls, rd) == Returned(rd.n)
    ensures nonblock && rd == ReadError(EAgain) ==> ReadVcSpec(nonblock, polls, rd) == Returned(0)
    ensures nonblock && rd.ReadError? && rd.errno != EAgain ==> ReadVcSpec(nonblock, polls, rd) == Returned(-1)
    ensures !nonblock && PollWait(polls) == None ==> ReadVcSpec(nonblock, polls, rd) == StillWaiting
    ensures !nonblock && PollWait(polls) == Some(false) ==> ReadVcSpec(nonblock, polls, rd) == Returned(-1)
    ensures !nonblock && PollWait(polls) == Some(true) && rd.Bytes? && rd.n > 0 ==> ReadVcSpec(nonblock, polls, rd) == Returned(rd.n)
    ensures !nonblock && PollWait(polls) == Some(true) && rd == Bytes(0) ==> ReadVcSpec(nonblock, polls, rd) == Returned(-1)
    ensures !nonblock && PollWait(polls) == Some(true) && rd.ReadError? ==> ReadVcSpec(nonblock, polls, rd) == Returned(-1)
  {
  }

  /** cf_conn: the private state of an accepted connection. */
  class CfConn {
    var strmStat: XprtStat
    var xid: u32
    var sendsize: u32
    var recvsize: u32
    var maxrec: i32
    var nonblock: bool
    var lastRecvTime: TimeVal

    /** makefd_xprt and the configuration step of rendezvous_request: the
      connection starts idle, inherits the listener's sizes and maxrec, and
      is non-blocking exactly when maxrec is not zero, its receive size then
      cut to maxrec; its last receive time is the accept time. */
    constructor Accept(r: CfRendezvous, now: TimeVal)
      ensures strmStat == Idle
      ensures sendsize == r.sendsize && maxrec == r.maxrec
      ensures nonblock <==> r.maxrec != 0
      ensures recvsize == if r.maxrec != 0 then ClampRecvsize(r.recvsize, r.maxrec) else r.recvsize
      ensures lastRecvTime == now
    {
      var rs, m := r.recvsize, r.maxrec;
      var nb: bool;
      if m != 0 {
        if rs > AsUnsigned(m) {
          rs := AsUnsigned(m);
        }
        nb := true;
      } else {
        nb := false;
      }
      strmStat, recvsize, sendsize, maxrec, nonblock := Idle, rs, r.sendsize, m, nb;
      lastRecvTime := now;
    }

    /** svc_vc_stat on this connection. */
    function StatNow(eof: bool): (s: XprtStat)
      reads this
      ensures s == ConnStat(strmStat, eof)
    {
      if strmStat == Died then Died else if !eof then MoreReqs else Idle
    }

    /** read_vc: the socket's answers are `rd` for the read and `polls` for
      the successive polls of a blocking wait; `now` is the clock. A fatal
      outcome marks the connection dead; the last receive time moves only
      when bytes arrived. */
    method ReadVc(polls: seq<PollOutcome>, rd: ReadOutcome, now: TimeVal) returns (r: ReadVcResult)
      modifies this
      ensures r == ReadVcSpec(nonblock, polls, rd)
      ensures strmStat == if r == Returned(-1) then Died else old(strmStat)
      ensures lastRecvTime == if r.Returned? && r.len > 0 then now else old(lastRecvTime)
      ensures xid == old(xid) && sendsize == old(sendsize) && recvsize == old(recvsize)
      ensures maxrec == old(maxrec) && nonblock == old(nonblock)
    {
      if nonblock {
        var len: int;
        match rd {
          case Bytes(n) => len := n;
          case ReadError(e) =>
            if e == EAgain {
              len := 0;
            } else {
              strmStat := Died;
              return Returned(-1);
            }
        }
        if len != 0 {
          lastRecvTime := now;
        }
        return Returned(len);
      }
      var k := 0;
      var ready := false;
      while k < |polls|
        invariant 0 <= k <= |polls|
        invariant PollWait(polls) == PollWait(polls[k..])
        decreases |polls| - k
      {
        assert polls[k..][1..] == polls[k + 1..];
        match polls[k] {
          case PollError(e) =>
            if e != EIntr {
              strmStat := Died;
              return Returned(-1);
            }
          case PollTimeout =>
            strmStat := Died;
            return Returned(-1);
          case PollReady(pollin) =>
            if pollin {
              ready := true;
              break;
            }
        }
        k := k + 1;
      }
      if !ready {
        return StillWaiting;
      }
      if rd.Bytes? && rd.n > 0 {
        lastRecvTime := now;
        return Returned(rd.n);
      }
      strmStat := Died;
      r := Returned(-1);
    }

    /** svc_vc_recv: a non-blocking connection first needs a complete record
      (`getrec`); then the call header is decoded (`decoded` is the xid of a
      call that decodes). A decoded call's xid is kept for the reply; a call
      that does not decode marks the connection dead. */
    method Recv(getrec: bool, decoded: Option<u32>) returns (ok: bool)
      modifies this
      ensures ok <==> (!nonblock || getrec) && decoded.Some?
      ensures ok ==> xid == decoded.value && strmStat == old(strmStat)
      ensures !ok ==> xid == old(xid)
      ensures !ok && (!nonblock || getrec) ==> strmStat == Died
      ensures nonblock && !getrec ==> strmStat == old(strmStat)
      ensures lastRecvTime == old(lastRecvTime) && nonblock == old(nonblock)
    {
      if nonblock && !getrec {
        return false;
      }
      if decoded.Some? {
        xid := decoded.value;
        return true;
      }
      strmStat := Died;
      ok := false;
    }

    /** svc_vc_reply: the reply carries the xid of the call last received;
      its status is whether the reply encoded. The record is always ended. */
    method Reply(encoded: bool) returns (rstat: bool, replyXid: u32)
      ensures rstat == encoded && replyXid == xid
    {
      replyXid := xid;
      rstat := encoded;
    }
  }

  // ---------------------------------------------------------------------
  // Teardown

  const AnyFd: int := -1

  /** What a transport owns at teardown. */
  datatype XprtInfo = XprtInfo(fd: int, port: u16, hasRtaddr: bool, hasLtaddr: bool, hasTp: bool, hasNetid: bool)

  datatype TeardownStep =
    | Unregister | CloseFd(fd: int) | FreeRendezvous | ResetPort | DestroyXdr | FreeConn
    | FreeRtaddr | FreeLtaddr | FreeTp | FreeNetid | FreeXprt

  /** __svc_vc_dodestroy, as the sequence of its effects. */
  function DodestroySteps(x: XprtInfo): (steps: seq<TeardownStep>)
    ensures |steps| > 0 && steps[|steps| - 1] == FreeXprt
  {
    (if x.fd != AnyFd then [CloseFd(x.fd)] else [])
    + (if x.port != 0 then [FreeRendezvous, ResetPort] else [DestroyXdr, FreeConn])
    + (if x.hasRtaddr then [FreeRtaddr] else [])
    + (if x.hasLtaddr then [FreeLtaddr] else [])
    + (if x.hasTp then [FreeTp] else [])
    + (if x.hasNetid then [FreeNetid] else [])
    + [FreeXprt]
  }

  /** svc_vc_destroy: unregister, then tear down. */
  function DestroySteps(x: XprtInfo): (steps: seq<TeardownStep>)
    ensures |steps| > 1 && steps[0] == Unregister && steps[1..] == DodestroySteps(x)
  {
    [Unregister] + DodestroySteps(x)
  }

  /** The optional frees of __svc_vc_dodestroy, after the private state. */
  function AddrFrees(x: XprtInfo): (steps: seq<TeardownStep>)
    ensures forall k :: 0 <= k < |steps| ==> steps[k].FreeRtaddr? || steps[k].FreeLtaddr? || steps[k].FreeTp? || steps[k].FreeNetid?
  {
    (if x.hasRtaddr then [FreeRtaddr] else [])
    + (if x.hasLtaddr then [FreeLtaddr] else [])
    + (if x.hasTp then [FreeTp] else [])
    + (if x.hasNetid then [FreeNetid] else [])
  }

  /** The descriptor close and the private-state frees. */
  function StateFrees(x: XprtInfo): (steps: seq<TeardownStep>)
    ensures forall k :: 0 <= k < |steps| ==> !steps[k].Unregister? && !steps[k].FreeXprt?
  {
    (if x.fd != AnyFd then [CloseFd(x.fd)] else [])
    + (if x.port != 0 then [FreeRendezvous, ResetPort] else [DestroyXdr, FreeConn])
  }

  lemma DestroyShape(x: XprtInfo)
    ensures DestroySteps(x) == [Unregister] + StateFrees(x) + AddrFrees(x) + [FreeXprt]
  {
  }

  /** Teardown unregisters before anything is freed or closed, and frees
      the transport itself last and exactly once. */
  lemma TeardownOrder(x: XprtInfo)
    ensures var s := DestroySteps(x);
      && s[0] == Unregister
      && (forall k :: 1 <= k < |s| ==> s[k] != Unregister)
      && s[|s| - 1] == FreeXprt
      && (forall k :: 0 <= k < |s| - 1 ==> s[k] != FreeXprt)
  {
    DestroyShape(x);
    var mid := StateFrees(x) + AddrFrees(x);
    assert forall k :: 0 <= k < |mid| ==> !mid[k].Unregister? && !mid[k].FreeXprt?;
    assert DestroySteps(x) == [Unregister] + mid + [FreeXprt];
  }

  /** The descriptor is closed exactly when it is a real one; the
      listener's state is freed exactly when the port is nonzero and the
      connection's state, with its codec, exactly when it is zero. */
  lemma TeardownBranches(x: XprtInfo)
    ensures var s := DestroySteps(x);
      && (CloseFd(x.fd) in s <==> x.fd != AnyFd)
      && (FreeRendezvous in s <==> x.port != 0)
      && (FreeConn in s <==> x.port == 0)
      && (DestroyXdr in s <==> x.port == 0)
  {
    StateFreesBranches(x);
    var a := AddrFrees(x);
    assert CloseFd(x.fd) !in a && FreeRendezvous !in a && FreeConn !in a && DestroyXdr !in a;
    DestroyMember(x, CloseFd(x.fd));
    DestroyMember(x, FreeRendezvous);
    DestroyMember(x, FreeConn);
    DestroyMember(x, DestroyXdr);
  }

  /** A step of svc_vc_destroy is the unregistration, a state free, an
      optional free, or the final free of the transport. */
  lemma DestroyMember(x: XprtInfo, e: TeardownStep)
    ensures e in DestroySteps(x) <==> e == Unregister || e in StateFrees(x) || e in AddrFrees(x) || e == FreeXprt
  {
    DestroyShape(x);
  }

  lemma StateFreesBranches(x: XprtInfo)
    ensures var s := StateFrees(x);
      && (CloseFd(x.fd) in s <==> x.fd != AnyFd)
      && (FreeRendezvous in s <==> x.port != 0)
      && (FreeConn in s <==> x.port == 0)
      && (DestroyXdr in s <==> x.port == 0)
  {
    var c: seq<TeardownStep> := if x.fd != AnyFd then [CloseFd(x.fd)] else [];
    var p: seq<TeardownStep> := if x.port != 0 then [FreeRendezvous, ResetPort] else [DestroyXdr, FreeConn];
    assert StateFrees(x) == c + p;
    assert FreeRendezvous !in c && FreeConn !in c && DestroyXdr !in c && CloseFd(x.fd) !in p;
  }

  /** The role decides the branch: a listener's state is freed as
      rendezvous state, a connection's as connection state. */
  lemma TeardownByRole(role: Role, fd: int, hasRtaddr: bool, hasLtaddr: bool, hasTp: bool, hasNetid: bool)
    ensures var s := DestroySteps(XprtInfo(fd, PortOf(role), hasRtaddr, hasLtaddr, hasTp, hasNetid));
      (FreeRendezvous in s <==> role == Rendezvous) && (FreeConn in s <==> role == Connection)
  {
    TeardownBranches(XprtInfo(fd, PortOf(role), hasRtaddr, hasLtaddr, hasTp, hasNetid));
  }
}
