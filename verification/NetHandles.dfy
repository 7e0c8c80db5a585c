/** The handle tables of the network provider and the process quota on sockets. */
module NetHandles {
  import opened Wrappers

  datatype Socket = Socket(descriptor: nat)

  /** The live handles of one kind, and the next id to give. */
  datatype Table<T> = Table(live: map<nat, T>, next: nat) {
    ghost predicate Valid() {
      next >= 1 && forall id <- live :: 1 <= id < next
    }

    ghost function Insert(value: T): Table<T> {
      Table(live[next := value], next + 1)
    }

    ghost function Remove(id: nat): Table<T> {
      Table(live - {id}, next)
    }

    /** `this` can have become `later` without an id being reused: whatever
        holds an id given out before held it then, unchanged. */
    ghost predicate Precedes(later: Table<T>) {
      next <= later.next
      && forall id <- later.live :: id < next ==> id in live && live[id] == later.live[id]
    }
  }

  datatype State = State(quota: nat, streams: Table<Socket>, listeners: Table<seq<Socket>>, datagrams: Table<Socket>)

  /** One call, with what the operating system answers: a socket or a failure.
      `Listen` has one answer per endpoint. */
  datatype Call =
    | UdpBind(bound: Option<Socket>)
    | Listen(binds: seq<Option<Socket>>, backlog: int)
    | Connect(connected: Option<Socket>)
    | Accept(listener: nat, accepted: Option<Socket>)
    | CloseStream(id: nat)
    | CloseListener(id: nat)
    | CloseDatagram(id: nat)

  datatype Reply =
    | StreamHandle(id: nat)
    | ListenerHandle(id: nat)
    | DatagramHandle(id: nat)
    | QuotaExceeded
    | InvalidArgument
    | Closed
    | HostFailure
    | Done

  const BACKLOG_MAX := 128
  const ENDPOINTS_MAX := 16

  // ----- counting sockets -------------------------------------------------------------

  /** The sockets of all listener sets together. */
  ghost function SetSizes(sets: map<nat, seq<Socket>>): nat {
    if sets == map[] then 0
    else
      var id :| id in sets;
      |sets[id]| + SetSizes(sets - {id})
  }

  lemma {:induction false} SetSizesWithout(sets: map<nat, seq<Socket>>, id: nat)
    requires id in sets
    ensures SetSizes(sets) == |sets[id]| + SetSizes(sets - {id})
    decreases |sets|
  {
    var first :| first in sets && SetSizes(sets) == |sets[first]| + SetSizes(sets - {first});
    if first != id {
      SetSizesWithout(sets - {first}, id);
      SetSizesWithout(sets - {id}, first);
      assert sets - {first} - {id} == sets - {id} - {first};
    }
  }

  lemma SetSizesWith(sets: map<nat, seq<Socket>>, id: nat, sockets: seq<Socket>)
    requires id !in sets
    ensures SetSizes(sets[id := sockets]) == SetSizes(sets) + |sockets|
  {
    SetSizesWithout(sets[id := sockets], id);
    assert sets[id := sockets] - {id} == sets;
  }

  ghost function Held(s: State): nat {
    |s.streams.live| + |s.datagrams.live| + SetSizes(s.listeners.live)
  }

  // ----- the specification --------------------------------------------------------------

  /** All the sockets, or nothing when one endpoint failed. */
  ghost function All(binds: seq<Option<Socket>>): Option<seq<Socket>> {
    if exists i | 0 <= i < |binds| :: binds[i].None? then None
    else Some(seq(|binds|, i requires 0 <= i < |binds| => binds[i].value))
  }

  /** The calls that are checked against the quota first. */
  ghost predicate Opens(call: Call) {
    call.UdpBind? || call.Listen? || call.Connect? || call.Accept?
  }

  /** Sockets a call asks room for. */
  ghost function Wanted(call: Call): nat {
    match call
    case UdpBind(_) => 1
    case Connect(_) => 1
    case Accept(_, _) => 1
    case Listen(binds, _) => |binds|
    case _ => 0
  }

  ghost function Answer(s: State, call: Call): (State, Reply) {
    if Opens(call) && Held(s) + Wanted(call) > s.quota then (s, QuotaExceeded)
    else match call
      case UdpBind(bound) =>
        if bound.None? then (s, HostFailure)
        else (s.(datagrams := s.datagrams.Insert(bound.value)), DatagramHandle(s.datagrams.next))
      case Listen(binds, backlog) =>
        if !(1 <= backlog <= BACKLOG_MAX) || binds == [] || |binds| > ENDPOINTS_MAX then (s, InvalidArgument)
        else if All(binds).None? then (s, HostFailure)
        else (s.(listeners := s.listeners.Insert(All(binds).value)), ListenerHandle(s.listeners.next))
      case Connect(connected) =>
        if connected.None? then (s, HostFailure)
        else (s.(streams := s.streams.Insert(connected.value)), StreamHandle(s.streams.next))
      case Accept(listener, accepted) =>
        if listener !in s.listeners.live then (s, Closed)
        else if accepted.None? then (s, HostFailure)
        else (s.(streams := s.streams.Insert(accepted.value)), StreamHandle(s.streams.next))
      case CloseStream(id) => (s.(streams := s.streams.Remove(id)), Done)
      case CloseListener(id) => (s.(listeners := s.listeners.Remove(id)), Done)
      case CloseDatagram(id) => (s.(datagrams := s.datagrams.Remove(id)), Done)
  }

  ghost predicate Valid(s: State) {
    s.streams.Valid() && s.listeners.Valid() && s.datagrams.Valid()
    && Held(s) <= s.quota
    && forall id <- s.listeners.live :: 1 <= |s.listeners.live[id]| <= ENDPOINTS_MAX
  }

  ghost predicate Precedes(s: State, t: State) {
    s.quota == t.quota && s.streams.Precedes(t.streams)
    && s.listeners.Precedes(t.listeners) && s.datagrams.Precedes(t.datagrams)
  }

  // ----- the provider ------------------------------------------------------------------------

  class NetProvider {
    const quota: nat
    var tcpStreams: map<nat, Socket>
    var nextTcpStream: nat
    var tcpListeners: map<nat, seq<Socket>>
    var nextTcpListener: nat
    var udpSockets: map<nat, Socket>
    var nextUdpSocket: nat

    ghost function View(): State
      reads this
    {
      State(quota, Table(tcpStreams, nextTcpStream), Table(tcpListeners, nextTcpListener),
            Table(udpSockets, nextUdpSocket))
    }

    constructor (quota: nat)
      ensures View() == Fresh(quota)
      ensures Valid(View())
    {
      this.quota := quota;
      tcpStreams, nextTcpStream := map[], 1;
      tcpListeners, nextTcpListener := map[], 1;
      udpSockets, nextUdpSocket := map[], 1;
    }

    /** The sockets the process holds. */
    method HeldSockets() returns (n: nat)
      ensures n == Held(View())
    {
      n := |tcpStreams| + |udpSockets|;
      var rest := tcpListeners;
      while rest != map[]
        invariant n + SetSizes(rest) == Held(View())
        decreases |rest|
      {
        var id :| id in rest;
        SetSizesWithout(rest, id);
        n := n + |rest[id]|;
        rest := rest - {id};
      }
    }

    method BindUdp(bound: Option<Socket>) returns (r: Reply)
      modifies this
      ensures (View(), r) == Answer(old(View()), UdpBind(bound))
    {
      var held := HeldSockets();
      if held >= quota {
        return QuotaExceeded;
      }
      match bound {
        case None => r := HostFailure;
        case Some(socket) =>
          var id := nextUdpSocket;
          nextUdpSocket := nextUdpSocket + 1;
          udpSockets := udpSockets[id := socket];
          r := DatagramHandle(id);
      }
    }

    /** Binds the endpoints in order, and gives up at the first failure. */
    static method BindAll(binds: seq<Option<Socket>>) returns (r: Option<seq<Socket>>)
      ensures r == All(binds)
    {
      var sockets: seq<Socket> := [];
      for i := 0 to |binds|
        invariant |sockets| == i
        invariant forall k :: 0 <= k < i ==> binds[k] == Some(sockets[k])
      {
        if binds[i].None? {
          return None;
        }
        sockets := sockets + [binds[i].value];
      }
      assert All(binds).Some? && sockets == All(binds).value;
      r := Some(sockets);
    }

    method ListenTcp(binds: seq<Option<Socket>>, backlog: int) returns (r: Reply)
      modifies this
      ensures (View(), r) == Answer(old(View()), Listen(binds, backlog))
    {
      var held := HeldSockets();
      if held + |binds| > quota {
        return QuotaExceeded;
      }
      if !(1 <= backlog <= BACKLOG_MAX) || binds == [] || |binds| > ENDPOINTS_MAX {
        return InvalidArgument;
      }
      var sockets := BindAll(binds);
      match sockets {
        case None => r := HostFailure;
        case Some(all) =>
          var id := nextTcpListener;
          nextTcpListener := nextTcpListener + 1;
          tcpListeners := tcpListeners[id := all];
          r := ListenerHandle(id);
      }
    }

    method ConnectTcp(connected: Option<Socket>) returns (r: Reply)
      modifies this
      ensures (View(), r) == Answer(old(View()), Connect(connected))
    {
      var held := HeldSockets();
      if held >= quota {
        return QuotaExceeded;
      }
      r := AddStream(connected);
    }

    method AddStream(stream: Option<Socket>) returns (r: Reply)
      modifies this`tcpStreams, this`nextTcpStream
      ensures stream.None? ==> r == HostFailure && View() == old(View())
      ensures stream.Some? ==> r == StreamHandle(old(nextTcpStream))
      ensures stream.Some? ==> View() == old(View()).(streams := old(View()).streams.Insert(stream.value))
    {
      match stream {
        case None => r := HostFailure;
        case Some(socket) =>
          var id := nextTcpStream;
          nextTcpStream := nextTcpStream + 1;
          tcpStreams := tcpStreams[id := socket];
          r := StreamHandle(id);
      }
    }

    method AcceptTcp(listener: nat, accepted: Option<Socket>) returns (r: Reply)
      modifies this
      ensures (View(), r) == Answer(old(View()), Accept(listener, accepted))
    {
      var held := HeldSockets();
      if held >= quota {
        return QuotaExceeded;
      }
      if listener !in tcpListeners {
        return Closed;
      }
      r := AddStream(accepted);
    }

    method CloseTcpStream(id: nat) returns (r: Reply)
      modifies this`tcpStreams
      ensures (View(), r) == Answer(old(View()), CloseStream(id))
    {
      tcpStreams := tcpStreams - {id};
      r := Done;
    }

    method CloseTcpListener(id: nat) returns (r: Reply)
      modifies this`tcpListeners
      ensures (View(), r) == Answer(old(View()), CloseListener(id))
    {
      tcpListeners := tcpListeners - {id};
      r := Done;
    }

    method CloseUdpSocket(id: nat) returns (r: Reply)
      modifies this`udpSockets
      ensures (View(), r) == Answer(old(View()), CloseDatagram(id))
    {
      udpSockets := udpSockets - {id};
      r := Done;
    }
  }

  // ----- runs ----------------------------------------------------------------------------------

  ghost function Run(s: State, calls: seq<Call>): State
    decreases |calls|
  {
    if calls == [] then s else Run(Answer(s, calls[0]).0, calls[1..])
  }

  ghost function Replies(s: State, calls: seq<Call>): (r: seq<Reply>)
    ensures |r| == |calls|
    decreases |calls|
  {
    if calls == [] then [] else [Answer(s, calls[0]).1] + Replies(Answer(s, calls[0]).0, calls[1..])
  }

  /** Sockets that a call's reply hands over. */
  ghost function Opened(s: State, call: Call): nat {
    var reply := Answer(s, call).1;
    if reply.StreamHandle? || reply.DatagramHandle? || reply.ListenerHandle? then Wanted(call) else 0
  }

  /** Sockets that a close drops: those of a live handle, and none otherwise. */
  ghost function Released(s: State, call: Call): nat {
    match call
    case CloseStream(id) => if id in s.streams.live then 1 else 0
    case CloseDatagram(id) => if id in s.datagrams.live then 1 else 0
    case CloseListener(id) => if id in s.listeners.live then |s.listeners.live[id]| else 0
    case _ => 0
  }

  ghost function AllOpened(s: State, calls: seq<Call>): nat
    decreases |calls|
  {
    if calls == [] then 0 else Opened(s, calls[0]) + AllOpened(Answer(s, calls[0]).0, calls[1..])
  }

  ghost function AllReleased(s: State, calls: seq<Call>): nat
    decreases |calls|
  {
    if calls == [] then 0 else Released(s, calls[0]) + AllReleased(Answer(s, calls[0]).0, calls[1..])
  }

  lemma SizeWith<T>(m: map<nat, T>, id: nat, value: T)
    requires id !in m
    ensures |m[id := value]| == |m| + 1
  {
    assert m[id := value].Keys == m.Keys + {id};
    assert |m[id := value]| == |m[id := value].Keys|;
  }

  lemma SizeWithout<T>(m: map<nat, T>, id: nat)
    ensures |m - {id}| == |m| - (if id in m then 1 else 0)
  {
    assert (m - {id}).Keys == m.Keys - {id};
    assert |m - {id}| == |(m - {id}).Keys| && |m| == |m.Keys|;
  }

  /** Sockets are conserved by every call: what is held afterwards is what was
      held, with what the reply opened and without what the close released. */
  lemma CallConserves(s: State, call: Call)
    requires Valid(s)
    ensures Held(Answer(s, call).0) + Released(s, call) == Held(s) + Opened(s, call)
  {
    hide SetSizes;
    if Opens(call) {
      OpeningConserves(s, call);
    } else {
      match call
      case CloseStream(id) => SizeWithout(s.streams.live, id);
      case CloseDatagram(id) => SizeWithout(s.datagrams.live, id);
      case CloseListener(id) =>
        if id in s.listeners.live {
          SetSizesWithout(s.listeners.live, id);
        } else {
          assert s.listeners.live - {id} == s.listeners.live;
        }
    }
  }

  lemma OpeningConserves(s: State, call: Call)
    requires Valid(s) && Opens(call)
    ensures Held(Answer(s, call).0) == Held(s) + Opened(s, call)
  {
    hide SetSizes;
    match call
    case UdpBind(bound) =>
      if bound.Some? {
        SizeWith(s.datagrams.live, s.datagrams.next, bound.value);
      }
    case Listen(binds, _) =>
      if All(binds).Some? {
        SetSizesWith(s.listeners.live, s.listeners.next, All(binds).value);
      }
    case Connect(connected) =>
      if connected.Some? {
        SizeWith(s.streams.live, s.streams.next, connected.value);
      }
    case Accept(_, accepted) =>
      if accepted.Some? {
        SizeWith(s.streams.live, s.streams.next, accepted.value);
      }
  }

  /** What was opened fits beside what was held. */
  lemma FitsWhenOpened(s: State, call: Call)
    requires Held(s) <= s.quota
    ensures Held(s) + Opened(s, call) <= s.quota
  {
    hide Held;
    hide All;
  }

  /** A table keeps its id bounds and reuses no id. */
  ghost predicate Grows<T>(before: Table<T>, after: Table<T>) {
    before.Valid() ==> after.Valid() && before.Precedes(after)
  }

  lemma TablesGrow(s: State, call: Call)
    ensures var t := Answer(s, call).0;
            Grows(s.streams, t.streams) && Grows(s.listeners, t.listeners) && Grows(s.datagrams, t.datagrams)
  {
    hide Held;
    hide All;
    hide Wanted;
  }

  lemma SetsStaySmall(s: State, call: Call)
    requires forall id <- s.listeners.live :: 1 <= |s.listeners.live[id]| <= ENDPOINTS_MAX
    ensures var t := Answer(s, call).0;
            t.quota == s.quota && forall id <- t.listeners.live :: 1 <= |t.listeners.live[id]| <= ENDPOINTS_MAX
  {
    hide Held;
    hide Wanted;
  }

  /** Every call keeps the quota, the id bounds and the size of every listener
      set, and reuses no id. */
  lemma CallKeepsValid(s: State, call: Call)
    requires Valid(s)
    ensures Valid(Answer(s, call).0) && Precedes(s, Answer(s, call).0)
  {
    CallConserves(s, call);
    TablesGrow(s, call);
    SetsStaySmall(s, call);
    FitsWhenOpened(s, call);
    hide Answer;
    hide Held;
    hide Opened;
    hide Released;
  }

  /** In every reachable state the sockets held are exactly those opened and not
      released, and never more than the quota; ids stay below their counters. */
  lemma {:induction false} RunKeepsQuota(s: State, calls: seq<Call>)
    requires Valid(s)
    ensures Valid(Run(s, calls)) && Held(Run(s, calls)) <= s.quota
    ensures Held(Run(s, calls)) + AllReleased(s, calls) == Held(s) + AllOpened(s, calls)
    decreases |calls|
  {
    if calls != [] {
      CallKeepsValid(s, calls[0]);
      CallConserves(s, calls[0]);
      hide Answer;
      hide Held;
      hide Opened;
      hide Released;
      RunKeepsQuota(Answer(s, calls[0]).0, calls[1..]);
    }
  }

  /** No insertion of a run overwrites a handle, and a closed handle stays
      closed: a live id given out before the run is live since, with the very
      socket it had. */
  lemma {:induction false} RunReusesNothing(s: State, calls: seq<Call>)
    requires Valid(s)
    ensures Precedes(s, Run(s, calls))
    decreases |calls|
  {
    if calls != [] {
      CallKeepsValid(s, calls[0]);
      hide Answer;
      RunReusesNothing(Answer(s, calls[0]).0, calls[1..]);
    }
  }

  ghost predicate IsHandle(r: Reply) {
    r.StreamHandle? || r.ListenerHandle? || r.DatagramHandle?
  }

  /** The handles a run can still give out. */
  ghost predicate NotGiven(s: State, r: Reply) {
    (r.StreamHandle? ==> s.streams.next <= r.id)
    && (r.ListenerHandle? ==> s.listeners.next <= r.id)
    && (r.DatagramHandle? ==> s.datagrams.next <= r.id)
  }

  lemma HandleIsNext(s: State, call: Call)
    requires Valid(s)
    ensures NotGiven(s, Answer(s, call).1)
    ensures IsHandle(Answer(s, call).1) ==> !NotGiven(Answer(s, call).0, Answer(s, call).1)
  {
    hide Held;
  }

  lemma {:induction false} HandlesAreNew(s: State, calls: seq<Call>, i: nat)
    requires Valid(s) && i < |calls|
    ensures NotGiven(s, Replies(s, calls)[i])
    decreases |calls|
  {
    HandleIsNext(s, calls[0]);
    if i > 0 {
      var next := Answer(s, calls[0]).0;
      CallKeepsValid(s, calls[0]);
      hide Answer;
      hide Held;
      HandlesAreNew(next, calls[1..], i - 1);
      assert Replies(s, calls)[i] == Replies(next, calls[1..])[i - 1];
    }
  }

  /** No two calls of a run return the same handle, closed in between or not. */
  lemma {:induction false} HandlesAreDistinct(s: State, calls: seq<Call>, i: nat, j: nat)
    requires Valid(s) && i < j < |calls|
    requires IsHandle(Replies(s, calls)[i])
    ensures Replies(s, calls)[i] != Replies(s, calls)[j]
    decreases |calls|
  {
    var next := Answer(s, calls[0]).0;
    CallKeepsValid(s, calls[0]);
    HandleIsNext(s, calls[0]);
    hide Answer;
    hide Valid;
    assert Replies(s, calls)[j] == Replies(next, calls[1..])[j - 1];
    if i == 0 {
      HandlesAreNew(next, calls[1..], j - 1);
    } else {
      assert Replies(s, calls)[i] == Replies(next, calls[1..])[i - 1];
      HandlesAreDistinct(next, calls[1..], i - 1, j - 1);
    }
  }

  /** A call that finds no room is refused before anything else is looked at. */
  lemma RefusedForRoom(s: State, call: Call)
    requires Valid(s)
    ensures Answer(s, call).1 == QuotaExceeded <==> Held(s) + Wanted(call) > s.quota
  {
    hide SetSizes;
  }

  ghost function Fresh(quota: nat): State {
    State(quota, Table(map[], 1), Table(map[], 1), Table(map[], 1))
  }

  /** Over the life of a provider, a call is refused for the quota exactly when
      the sockets it asks for do not fit beside those opened and not yet released:
      closing always gives the room back, and nothing else takes any. */
  lemma RefusedExactlyWhenFull(quota: nat, calls: seq<Call>, call: Call)
    ensures var s := Fresh(quota);
            Answer(Run(s, calls), call).1 == QuotaExceeded <==>
              AllOpened(s, calls) - AllReleased(s, calls) + Wanted(call) > quota
  {
    var s := Fresh(quota);
    assert Held(s) == 0;
    RunKeepsQuota(s, calls);
    RunReusesNothing(s, calls);
    RefusedForRoom(Run(s, calls), call);
    hide Answer;
    hide Held;
  }

  /** When there is room and the system agrees to bind or connect, the call
      succeeds, with as many sockets as it asked for. */
  lemma GrantedWhenRoom(s: State, call: Call)
    requires Valid(s) && Held(s) + Wanted(call) <= s.quota && Agreed(s, call)
    ensures IsHandle(Answer(s, call).1)
    ensures Held(Answer(s, call).0) == Held(s) + Wanted(call)
  {
    CallConserves(s, call);
    hide Held;
    if call.Listen? {
      forall i | 0 <= i < |call.binds| ensures call.binds[i].Some? {
        assert call.binds[i] in call.binds;
      }
    }
  }

  /** The system agrees, and the arguments are ones it can be asked about. */
  ghost predicate Agreed(s: State, call: Call) {
    match call
    case UdpBind(bound) => bound.Some?
    case Connect(connected) => connected.Some?
    case Accept(listener, accepted) => listener in s.listeners.live && accepted.Some?
    case Listen(binds, backlog) =>
      1 <= |binds| <= ENDPOINTS_MAX && 1 <= backlog <= BACKLOG_MAX && forall bind <- binds :: bind.Some?
    case _ => false
  }

  // ----- what a call does ------------------------------------------------------------------------

  /** A handle that is returned is live afterwards with the very sockets that the
      system gave, in the order of the endpoints, and everything else is as before. */
  lemma HandleHoldsItsSockets(s: State, call: Call)
    requires IsHandle(Answer(s, call).1)
    ensures var (t, r) := Answer(s, call);
            && (r.StreamHandle? ==>
                  && (call.Connect? || call.Accept?)
                  && t.listeners == s.listeners && t.datagrams == s.datagrams
                  && t.streams.live.Keys == s.streams.live.Keys + {r.id}
                  && (call.Connect? ==> call.connected == Some(t.streams.live[r.id]))
                  && (call.Accept? ==>
                        call.listener in s.listeners.live && call.accepted == Some(t.streams.live[r.id])))
            && (r.DatagramHandle? ==>
                  && call.UdpBind?
                  && t.listeners == s.listeners && t.streams == s.streams
                  && t.datagrams.live.Keys == s.datagrams.live.Keys + {r.id}
                  && call.bound == Some(t.datagrams.live[r.id]))
            && (r.ListenerHandle? ==>
                  && call.Listen?
                  && t.streams == s.streams && t.datagrams == s.datagrams
                  && t.listeners.live.Keys == s.listeners.live.Keys + {r.id}
                  && |t.listeners.live[r.id]| == |call.binds|
                  && forall i | 0 <= i < |call.binds| :: call.binds[i] == Some(t.listeners.live[r.id][i]))
  {
    hide Held;
  }

  /** Closing a handle forgets that one alone, live or not, and says it is done. */
  lemma CloseForgetsOne(s: State, id: nat)
    ensures Answer(s, CloseStream(id)) ==
            (s.(streams := Table(s.streams.live - {id}, s.streams.next)), Done)
    ensures Answer(s, CloseListener(id)) ==
            (s.(listeners := Table(s.listeners.live - {id}, s.listeners.next)), Done)
    ensures Answer(s, CloseDatagram(id)) ==
            (s.(datagrams := Table(s.datagrams.live - {id}, s.datagrams.next)), Done)
  {
    hide Held;
  }

  /** Every failure changes nothing.  With room, an unknown listener is closed, a
      listen with a backlog outside 1 to 128 or endpoints outside 1 to 16 is invalid,
      and everything else fails only when the system refuses one of its sockets. */
  lemma FailuresAre(s: State, call: Call)
    ensures var (t, r) := Answer(s, call);
            && (!IsHandle(r) && r != Done ==> t == s)
            && (Held(s) + Wanted(call) <= s.quota && Opens(call) ==>
                  && (r == Closed <==> call.Accept? && call.listener !in s.listeners.live)
                  && (r == InvalidArgument <==>
                        && call.Listen?
                        && (call.backlog < 1 || call.backlog > 128 || |call.binds| < 1 || |call.binds| > 16))
                  && (r == HostFailure ==>
                        || call == UdpBind(None) || call == Connect(None)
                        || (call.Accept? && call.accepted.None?)
                        || (call.Listen? && exists i | 0 <= i < |call.binds| :: call.binds[i].None?)))
  {
    hide Held;
  }
}
