/** The MASQUE proxy's sessions (tunnel/masque/server.go) as a state machine. */
module Sessions {
  // Each session runs HandleSession in its own goroutine; a step here is one atomic access to
  // shared state (the closed flag, the wait group, the allocator under its lock, the session
  // table under its lock, one send). Runs interleave any number of sessions in any order.

  import opened Words
  import opened Ipam
  import opened Inspector

  type Sid = nat
  type Packet = seq<byte>

  /** Where a session's goroutine stands in HandleSession. */
  datatype Phase =
    | Idle                                   // not called yet
    | Admitted                               // saw the server open
    | Counted                                // in the wait group
    | Holding(addr: Addr)                    // owns a lease
    | Registered(addr: Addr)                 // in the session table
    | Routing(addr: Addr, packet: Packet, to: Sid)  // looked up a receiver, about to send
    | Removed(addr: Addr)                    // out of the table, lease still owned
    | Returned                               // lease given back
    | Ended
  {
    predicate Holds() { Holding? || Registered? || Routing? || Removed? }
    predicate Listed() { Registered? || Routing? }
    predicate Waited() { Counted? || Holds() || Returned? }
  }

  datatype Delivery = Delivery(sender: Sid, receiver: Sid, packet: Packet)

  datatype State = State(
    closed: bool,
    conns: nat,
    leased: set<Addr>,
    next: nat,
    table: map<Addr, Sid>,
    phase: map<Sid, Phase>,
    given: map<Sid, Addr>,      // assignedIP of every session ever given one
    delivered: seq<Delivery>)
  {
    function At(s: Sid): Phase { if s in phase then phase[s] else Idle }
  }

  datatype Pool = Pool(p4: Prefix4, p6: Prefix6) {
    predicate Valid() { p4.Valid() && p4.bits <= 30 }
  }

  datatype Event =
    | Admit(s: Sid) | Refuse(s: Sid) | Count(s: Sid) | Allocate(s: Sid) | PoolEmpty(s: Sid)
    | Register(s: Sid) | Receive(s: Sid, packet: Packet) | Send(s: Sid)
    | Unregister(s: Sid) | Release(s: Sid) | Finish(s: Sid)
    | Close

  ghost const Start: State := State(false, 0, {}, 2, map[], map[], map[], [])

  function Move(st: State, s: Sid, p: Phase): State {
    st.(phase := st.phase[s := p])
  }

  /** One received datagram with default routing: spoofed sources are dropped, and the table is
      looked up under the read lock. */
  function Received(st: State, s: Sid, addr: Addr, packet: Packet): State {
    if |packet| == 0 then st
    else if ExtractSrcIP(packet) != Invalid && ExtractSrcIP(packet) != addr then st
    else if ExtractDestIP(packet) == Invalid || ExtractDestIP(packet) !in st.table then st
    else Move(st, s, Routing(addr, packet, st.table[ExtractDestIP(packet)]))
  }

  ghost predicate Next(pool: Pool, st: State, e: Event, st': State)
    requires pool.Valid()
  {
    match e
    case Admit(s) => st.At(s).Idle? && !st.closed && st' == Move(st, s, Admitted)
    case Refuse(s) => st.At(s).Idle? && st.closed && st' == Move(st, s, Ended)
    case Count(s) => st.At(s).Admitted? && st' == Move(st, s, Counted).(conns := st.conns + 1)
    case Allocate(s) =>
      && st.At(s).Counted?
      && exists a: Assigned ::
           && AllocateSpec(pool.p4, pool.p6, st.leased, st.next, [], Leased(a), st'.leased, st'.next)
           && st' == Move(st, s, Holding(a.addr)).(leased := st'.leased, next := st'.next,
                                                   given := st.given[s := a.addr])
    case PoolEmpty(s) =>
      && st.At(s).Counted?
      && AllocateSpec(pool.p4, pool.p6, st.leased, st.next, [], Exhausted, st'.leased, st'.next)
      && st' == Move(st, s, Returned).(leased := st'.leased, next := st'.next)
    case Register(s) =>
      st.At(s).Holding? && st' == Move(st, s, Registered(st.At(s).addr)).(table := st.table[st.At(s).addr := s])
    case Receive(s, packet) =>
      st.At(s).Registered? && st' == Received(st, s, st.At(s).addr, packet)
    case Send(s) =>
      && st.At(s).Routing?
      && var p := st.At(s);
         st' == Move(st, s, Registered(p.addr)).(delivered := st.delivered + [Delivery(s, p.to, p.packet)])
    case Unregister(s) =>
      st.At(s).Registered? && st' == Move(st, s, Removed(st.At(s).addr)).(table := st.table - {st.At(s).addr})
    case Release(s) =>
      st.At(s).Removed? && st' == Move(st, s, Returned).(leased := st.leased - {st.At(s).addr})
    case Finish(s) =>
      st.At(s).Returned? && st.conns > 0 && st' == Move(st, s, Ended).(conns := st.conns - 1)
    case Close => st' == st.(closed := true)
  }

  // ----- the inductive invariant -----

  /** Leases: each holder's address is leased, each leased address has a holder, no two share one. */
  ghost predicate LeasesOwned(st: State) {
    && (forall s | s in st.phase && st.phase[s].Holds() ::
          && st.phase[s].addr in st.leased && s in st.given && st.given[s] == st.phase[s].addr)
    && (forall a | a in st.leased :: exists s :: s in st.phase && st.phase[s].Holds() && st.phase[s].addr == a)
    && (forall s, t | s in st.phase && t in st.phase && st.phase[s].Holds() && st.phase[t].Holds() && s != t ::
          st.phase[s].addr != st.phase[t].addr)
  }

  /** The table lists exactly the registered sessions, each under its own address. */
  ghost predicate TableOwned(st: State) {
    && (forall a | a in st.table ::
          && st.table[a] in st.phase && st.phase[st.table[a]].Listed() && st.phase[st.table[a]].addr == a)
    && (forall s | s in st.phase && st.phase[s].Listed() ::
          st.phase[s].addr in st.table && st.table[st.phase[s].addr] == s)
  }

  predicate Proper(st: State, d: Delivery) {
    && d.sender in st.given && ExtractSrcIP(d.packet) == st.given[d.sender]
    && d.receiver in st.given && ExtractDestIP(d.packet) == st.given[d.receiver] != Invalid
  }

  ghost predicate PacketsProper(st: State) {
    && (forall s | s in st.phase && st.phase[s].Routing? ::
          Proper(st, Delivery(s, st.phase[s].to, st.phase[s].packet)))
    && (forall i | 0 <= i < |st.delivered| :: Proper(st, st.delivered[i]))
    && (forall s | s in st.given :: s in st.phase && !st.phase[s].Idle? && !st.phase[s].Admitted? && !st.phase[s].Counted?)
  }

  ghost function Waiting(st: State): set<Sid> {
    set s | s in st.phase && st.phase[s].Waited()
  }

  ghost predicate Inv(pool: Pool, st: State)
    requires pool.Valid()
  {
    && 2 <= st.next < pool.p4.MaxHosts()
    && Invalid !in st.leased
    && LeasesOwned(st) && TableOwned(st) && PacketsProper(st)
    && st.conns == |Waiting(st)|
  }

  /** The states the invariant admits, and the states an event may lead to. */
  ghost function Good(pool: Pool): iset<State>
    requires pool.Valid()
  {
    iset st | Inv(pool, st)
  }

  ghost function Successors(pool: Pool, st: State, e: Event): iset<State>
    requires pool.Valid()
  {
    iset st' | Next(pool, st, e, st')
  }

  lemma {:induction false} InvStart(pool: Pool)
    requires pool.Valid()
    ensures Start in Good(pool)
  {
    SmallPrefixRoom(pool.p4);
    assert Waiting(Start) == {};
  }

  lemma {:induction false} LeasesKept(pool: Pool, st: State, e: Event, st': State)
    requires pool.Valid() && Inv(pool, st) && Next(pool, st, e, st')
    ensures LeasesOwned(st')
  {
    if e.Allocate? {
      assert LeasesOwned(st') by { AllocateKeepsLeases(pool, st, e.s, st'); }
    } else if e.Release? {
      ReleaseKeepsLeases(st, e.s, st');
    } else if !e.Close? {
      SamePossession(st, e.s, st');
    }
  }

  lemma {:induction false} AllocateKeepsLeases(pool: Pool, st: State, s: Sid, st': State)
    requires pool.Valid() && LeasesOwned(st) && Next(pool, st, Allocate(s), st')
    ensures LeasesOwned(st')
  {
    forall a | a in st'.leased ensures exists t :: t in st'.phase && st'.phase[t].Holds() && st'.phase[t].addr == a {
      if a in st.leased {
        var t :| t in st.phase && st.phase[t].Holds() && st.phase[t].addr == a;
        assert t in st'.phase && st'.phase[t].Holds() && st'.phase[t].addr == a;
      } else {
        assert s in st'.phase && st'.phase[s].Holds() && st'.phase[s].addr == a;
      }
    }
  }

  lemma {:induction false} ReleaseKeepsLeases(st: State, s: Sid, st': State)
    requires LeasesOwned(st) && st.At(s).Removed?
    requires st' == Move(st, s, Returned).(leased := st.leased - {st.At(s).addr})
    ensures LeasesOwned(st')
  {
    forall a | a in st'.leased ensures exists t :: t in st'.phase && st'.phase[t].Holds() && st'.phase[t].addr == a {
      var t :| t in st.phase && st.phase[t].Holds() && st.phase[t].addr == a;
      assert t in st'.phase && st'.phase[t].Holds() && st'.phase[t].addr == a;
    }
  }

  /** Steps that change neither the pool nor who holds what. */
  lemma {:induction false} SamePossession(st: State, s: Sid, st': State)
    requires LeasesOwned(st) && st'.leased == st.leased && st'.given == st.given
    requires st' == st || (s in st'.phase && st'.phase == st.phase[s := st'.phase[s]])
    requires st' != st ==> st.At(s).Holds() == st'.At(s).Holds()
    requires st' != st && st.At(s).Holds() ==> st'.At(s).addr == st.At(s).addr
    ensures LeasesOwned(st')
  {
    forall a | a in st'.leased ensures exists t :: t in st'.phase && st'.phase[t].Holds() && st'.phase[t].addr == a {
      var t :| t in st.phase && st.phase[t].Holds() && st.phase[t].addr == a;
      assert t in st'.phase && st'.phase[t].Holds() && st'.phase[t].addr == a;
    }
  }

  predicate SameEntry(p: Phase, q: Phase) { p.Listed() == q.Listed() && (p.Listed() ==> q.addr == p.addr) }

  /** Steps that leave the table alone and list the same sessions under the same addresses. */
  lemma {:induction false} SameListing(st: State, st': State)
    requires TableOwned(st) && st'.table == st.table && forall s :: SameEntry(st.At(s), st'.At(s))
    ensures TableOwned(st')
  {
    forall a | a in st'.table
      ensures st'.table[a] in st'.phase && st'.phase[st'.table[a]].Listed() && st'.phase[st'.table[a]].addr == a
    {
      assert SameEntry(st.At(st.table[a]), st'.At(st.table[a]));
    }
    forall s | s in st'.phase && st'.phase[s].Listed()
      ensures st'.phase[s].addr in st'.table && st'.table[st'.phase[s].addr] == s
    {
      assert SameEntry(st.At(s), st'.At(s));
    }
  }

  lemma {:induction false} RegisterKeepsTable(st: State, s: Sid, st': State)
    requires TableOwned(st) && LeasesOwned(st) && st.At(s).Holding?
    requires st'.table == st.table[st.At(s).addr := s] && st'.phase == st.phase[s := Registered(st.At(s).addr)]
    ensures TableOwned(st')
  {
  }

  lemma {:induction false} UnregisterKeepsTable(st: State, s: Sid, st': State)
    requires TableOwned(st) && LeasesOwned(st) && st.At(s).Registered?
    requires st'.table == st.table - {st.At(s).addr} && st'.phase == st.phase[s := Removed(st.At(s).addr)]
    ensures TableOwned(st')
  {
  }

  lemma {:induction false} TableKept(pool: Pool, st: State, e: Event, st': State)
    requires pool.Valid() && TableOwned(st) && LeasesOwned(st) && Next(pool, st, e, st')
    ensures TableOwned(st')
  {
    TableStep(pool, st, e, st');
    if e.Register? {
      RegisterKeepsTable(st, e.s, st');
    } else if e.Unregister? {
      UnregisterKeepsTable(st, e.s, st');
    } else {
      SameListing(st, st');
    }
  }

  /** The table changes in two steps only, and with it who is listed where. */
  lemma {:induction false} TableStep(pool: Pool, st: State, e: Event, st': State)
    requires pool.Valid() && Next(pool, st, e, st')
    ensures e.Register? ==>
      && st.At(e.s).Holding? && st'.table == st.table[st.At(e.s).addr := e.s]
      && st'.phase == st.phase[e.s := Registered(st.At(e.s).addr)]
    ensures e.Unregister? ==>
      && st.At(e.s).Registered? && st'.table == st.table - {st.At(e.s).addr}
      && st'.phase == st.phase[e.s := Removed(st.At(e.s).addr)]
    ensures !e.Register? && !e.Unregister? ==> st'.table == st.table && forall s :: SameEntry(st.At(s), st'.At(s))
  {
  }

  /** Steps that neither assign, route nor deliver. */
  lemma {:induction false} SamePackets(st: State, s: Sid, p: Phase, st': State)
    requires PacketsProper(st) && st'.given == st.given && st'.delivered == st.delivered
    requires st'.phase == st.phase[s := p] && !p.Routing?
    requires p.Idle? || p.Admitted? || p.Counted? ==> st.At(s).Idle? || st.At(s).Admitted? || st.At(s).Counted?
    ensures PacketsProper(st')
  {
  }

  lemma {:induction false} AllocateKeepsPackets(st: State, s: Sid, a: Addr, st': State)
    requires PacketsProper(st) && st.At(s).Counted? && st'.given == st.given[s := a]
    requires st'.delivered == st.delivered && st'.phase == st.phase[s := Holding(a)]
    ensures PacketsProper(st')
  {
    assert s !in st.given;
  }

  lemma {:induction false} ReceiveKeepsPackets(st: State, s: Sid, packet: Packet, st': State)
    requires PacketsProper(st) && TableOwned(st) && LeasesOwned(st) && st.At(s).Registered?
    requires st' == Received(st, s, st.At(s).addr, packet)
    ensures PacketsProper(st')
  {
    SourceWithDestination(packet);
    if st' != st { RouteKeepsPackets(st, s, st.At(s).addr, packet, st.table[ExtractDestIP(packet)], st'); }
  }

  lemma {:induction false} RouteKeepsPackets(st: State, s: Sid, addr: Addr, packet: Packet, target: Sid, st': State)
    requires PacketsProper(st) && Proper(st, Delivery(s, target, packet)) && st.At(s).Registered?
    requires st' == Move(st, s, Routing(addr, packet, target))
    ensures PacketsProper(st')
  {
  }

  lemma {:induction false} SendKeepsPackets(st: State, s: Sid, st': State)
    requires PacketsProper(st) && st.At(s).Routing? && st'.given == st.given
    requires st'.delivered == st.delivered + [Delivery(s, st.At(s).to, st.At(s).packet)]
    requires st'.phase == st.phase[s := Registered(st.At(s).addr)]
    ensures PacketsProper(st')
  {
  }

  lemma {:induction false} PacketsKept(pool: Pool, st: State, e: Event, st': State)
    requires pool.Valid() && PacketsProper(st) && TableOwned(st) && LeasesOwned(st) && Next(pool, st, e, st')
    ensures PacketsProper(st')
  {
    match e
    case Allocate(s) => AllocateKeepsPackets(st, s, st'.phase[s].addr, st');
    case Receive(s, packet) => ReceiveKeepsPackets(st, s, packet, st');
    case Send(s) => SendKeepsPackets(st, s, st');
    case Close =>
    case _ => SamePackets(st, e.s, st'.phase[e.s], st');
  }

  lemma {:induction false} WaitingMoved(st: State, s: Sid, p: Phase, st': State)
    requires st'.phase == st.phase[s := p]
    ensures |Waiting(st')| == |Waiting(st)| - (if st.At(s).Waited() then 1 else 0) + (if p.Waited() then 1 else 0)
  {
    assert Waiting(st') == if p.Waited() then Waiting(st) + {s} else Waiting(st) - {s};
    assert s in Waiting(st) <==> st.At(s).Waited();
  }

  lemma {:induction false} CountKept(pool: Pool, st: State, e: Event, st': State)
    requires pool.Valid() && st.conns == |Waiting(st)| && Next(pool, st, e, st')
    ensures st'.conns == |Waiting(st')|
  {
    if e.Close? || st' == st {
      assert Waiting(st') == Waiting(st);
    } else {
      var p := st'.phase[e.s];
      WaitingMoved(st, e.s, p, st');
      assert st'.conns == st.conns - (if st.At(e.s).Waited() then 1 else 0) + (if p.Waited() then 1 else 0);
    }
  }

  lemma {:induction false} CursorKept(pool: Pool, st: State, e: Event, st': State)
    requires pool.Valid() && Next(pool, st, e, st')
    requires 2 <= st.next < pool.p4.MaxHosts() && Invalid !in st.leased
    ensures 2 <= st'.next < pool.p4.MaxHosts() && Invalid !in st'.leased
  {
    if e.Allocate? {
      var a: Assigned :| AllocateSpec(pool.p4, pool.p6, st.leased, st.next, [], Leased(a), st'.leased, st'.next);
      LeaseIsProper(pool.p4, pool.p6, st.leased, st.next, [], a, st'.leased, st'.next);
    }
  }

  lemma {:induction false} InvKept(pool: Pool, st: State, e: Event, st': State)
    requires pool.Valid() && st in Good(pool) && st' in Successors(pool, st, e)
    ensures st' in Good(pool)
  {
    LeasesKept(pool, st, e, st');
    TableKept(pool, st, e, st');
    PacketsKept(pool, st, e, st');
    CountKept(pool, st, e, st');
    CursorKept(pool, st, e, st');
  }

  // ----- runs -----

  /** A run: states joined by events. */
  ghost predicate Run(pool: Pool, states: seq<State>, events: seq<Event>)
    requires pool.Valid()
  {
    && |states| == |events| + 1
    && forall i | 0 <= i < |events| :: states[i + 1] in Successors(pool, states[i], events[i])
  }

  lemma {:induction false} InvAlongRun(pool: Pool, states: seq<State>, events: seq<Event>, k: nat)
    requires pool.Valid() && Run(pool, states, events) && states[0] == Start && k < |states|
    ensures states[k] in Good(pool)
  {
    if k == 0 {
      InvStart(pool);
    } else {
      InvAlongRun(pool, states, events, k - 1);
      InvKept(pool, states[k - 1], events[k - 1], states[k]);
    }
  }

  /** In every state of every run: no two live sessions hold one address, table keys are leased to
      the session listed, and the octets of every delivered packet name its sender's address as source
      and its receiver's as destination. */
  lemma {:induction false} SessionsSafe(pool: Pool, states: seq<State>, events: seq<Event>, k: nat)
    requires pool.Valid() && Run(pool, states, events) && states[0] == Start && k < |states|
    ensures forall s, t | s != t && states[k].At(s).Holds() && states[k].At(t).Holds() ::
              states[k].At(s).addr != states[k].At(t).addr
    ensures forall a | a in states[k].table ::
              a in states[k].leased && states[k].At(states[k].table[a]).Listed() && states[k].At(states[k].table[a]).addr == a
    ensures forall i | 0 <= i < |states[k].delivered| :: Addressed(states[k], states[k].delivered[i])
  {
    InvAlongRun(pool, states, events, k);
    forall i | 0 <= i < |states[k].delivered| ensures Addressed(states[k], states[k].delivered[i]) {
      ProperAddressed(pool, states[k], i);
    }
  }

  /** In terms of the packet's octets. */
  ghost predicate Addressed(st: State, d: Delivery) {
    d.sender in st.given && d.receiver in st.given && Carries(d.packet, st.given[d.sender], st.given[d.receiver])
  }

  lemma {:induction false} ProperAddressed(pool: Pool, st: State, i: nat)
    requires pool.Valid() && st in Good(pool) && i < |st.delivered|
    ensures Addressed(st, st.delivered[i])
  {
    var d := st.delivered[i];
    assert Proper(st, d);
    SourceWithDestination(d.packet);
    ExtractedExactly(d.packet, st.given[d.sender], st.given[d.receiver]);
  }

  /** In every run: a registered session's packet that carries its own address as source and a listed
      one as destination is on its way to the session listed there, which owns that address; any
      other packet is dropped. */
  lemma {:induction false} RoutedExactly(pool: Pool, states: seq<State>, events: seq<Event>, k: nat, s: Sid, packet: Packet)
    requires pool.Valid() && Run(pool, states, events) && states[0] == Start && k < |events| && events[k] == Receive(s, packet)
    ensures var st := states[k];
      && st.At(s).Registered?
      && (forall dst | dst in st.table && Carries(packet, st.At(s).addr, dst) ::
            && states[k + 1] == Move(st, s, Routing(st.At(s).addr, packet, st.table[dst]))
            && st.table[dst] in st.given && st.given[st.table[dst]] == dst)
      && ((forall dst | dst in st.table :: !Carries(packet, st.At(s).addr, dst)) ==> states[k + 1] == st)
  {
    StepAt(pool, states, events, k);
    var st := states[k];
    assert Next(pool, st, events[k], states[k + 1]);
    var src, dst := ExtractSrcIP(packet), ExtractDestIP(packet);
    SourceWithDestination(packet);
    forall other ensures Carries(packet, st.At(s).addr, other) <==> src == st.At(s).addr && dst == other && src != Invalid {
      ExtractedExactly(packet, st.At(s).addr, other);
    }
    if dst in st.table { ListedOwner(pool, st, dst); }
  }

  lemma {:induction false} ListedOwner(pool: Pool, st: State, a: Addr)
    requires pool.Valid() && st in Good(pool) && a in st.table
    ensures st.table[a] in st.given && st.given[st.table[a]] == a
  {
    assert st.table[a] in st.phase && st.phase[st.table[a]].Listed();
  }

  /** Whatever a step removes from the table or overwrites in it belonged to the acting session. */
  lemma {:induction false} OnlyOwnEntries(pool: Pool, states: seq<State>, events: seq<Event>, k: nat, a: Addr)
    requires pool.Valid() && Run(pool, states, events) && states[0] == Start && k < |events|
    requires a in states[k].table && (a !in states[k + 1].table || states[k + 1].table[a] != states[k].table[a])
    ensures events[k] == Unregister(states[k].table[a])
  {
    InvAlongRun(pool, states, events, k);
    OwnEntry(pool, states[k], events[k], states[k + 1], a);
  }

  lemma {:induction false} OwnEntry(pool: Pool, st: State, e: Event, st': State, a: Addr)
    requires pool.Valid() && st in Good(pool) && st' in Successors(pool, st, e)
    requires a in st.table && (a !in st'.table || st'.table[a] != st.table[a])
    ensures e == Unregister(st.table[a])
  {
    TableStep(pool, st, e, st');
    if e.Register? { UnlistedAddress(st, e.s); }
    if e.Unregister? { OwnAddress(st, e.s); }
  }

  lemma {:induction false} UnlistedAddress(st: State, s: Sid)
    requires LeasesOwned(st) && TableOwned(st) && st.At(s).Holding?
    ensures st.At(s).addr !in st.table
  {
  }

  lemma {:induction false} OwnAddress(st: State, s: Sid)
    requires TableOwned(st) && st.At(s).Registered?
    ensures st.At(s).addr in st.table && st.table[st.At(s).addr] == s
  {
  }

  /** When no session is between its allocation and its release, every lease is back in the pool and
      the table is empty; in particular when the wait group is at zero. */
  lemma {:induction false} AllReturned(pool: Pool, states: seq<State>, events: seq<Event>, k: nat)
    requires pool.Valid() && Run(pool, states, events) && states[0] == Start && k < |states|
    ensures states[k].leased == {} <==> forall s :: !states[k].At(s).Holds()
    ensures states[k].leased == {} ==> states[k].table == map[]
    ensures states[k].conns == 0 ==> states[k].leased == {}
  {
    InvAlongRun(pool, states, events, k);
    ReturnedAt(pool, states[k]);
  }

  lemma {:induction false} ReturnedAt(pool: Pool, st: State)
    requires pool.Valid() && st in Good(pool)
    ensures st.leased == {} <==> forall s :: !st.At(s).Holds()
    ensures st.leased == {} ==> st.table == map[]
    ensures st.conns == 0 ==> st.leased == {}
  {
    assert forall s | st.At(s).Holds() :: st.phase[s].addr in st.leased && s in Waiting(st);
    assert forall a | a in st.leased :: exists s :: st.At(s).Holds() && st.phase[s].addr == a by {
      forall a | a in st.leased ensures exists s :: st.At(s).Holds() && st.phase[s].addr == a {
        var s :| s in st.phase && st.phase[s].Holds() && st.phase[s].addr == a;
        assert st.At(s).Holds();
      }
    }
    assert forall a | a in st.table :: st.At(st.table[a]).Holds();
  }

  // ----- shutdown -----

  /** Shutdown returns once the server is closed and the wait group is at zero. */
  predicate ShutDown(st: State) { st.closed && st.conns == 0 }

  /** No session is between seeing the server open and joining the wait group. */
  ghost predicate NoneAdmitted(st: State) { forall s | s in st.phase :: !st.phase[s].Admitted? }

  /** Closed states from which nobody can come back, with the given deliveries. */
  ghost function Quiet(delivered: seq<Delivery>): iset<State> {
    iset st | ShutDown(st) && NoneAdmitted(st) && st.delivered == delivered
  }

  lemma {:induction false} QuietKept(pool: Pool, st: State, e: Event, st': State)
    requires pool.Valid() && st in Good(pool) && st' in Successors(pool, st, e) && st in Quiet(st.delivered)
    ensures st' in Quiet(st.delivered)
  {
    assert Waiting(st) == {};
    assert forall s | s in st.phase :: st.phase[s].Waited() ==> s in Waiting(st);
    OnlyRefusals(pool, st, e, st');
  }

  /** With the server closed and nobody inside, all that can happen is being refused. */
  lemma {:induction false} OnlyRefusals(pool: Pool, st: State, e: Event, st': State)
    requires pool.Valid() && st.closed && (forall s | s in st.phase :: !st.phase[s].Waited() && !st.phase[s].Admitted?)
    requires st' in Successors(pool, st, e)
    ensures st' == st.(closed := true) || (e.Refuse? && st' == Move(st, e.s, Ended))
  {
    assert Next(pool, st, e, st');
  }

  /** A set of states that every step from a reachable state keeps is never left. */
  lemma {:induction false} StaysIn(kept: iset<State>, pool: Pool, states: seq<State>, events: seq<Event>, k: nat, j: nat)
    requires pool.Valid() && Run(pool, states, events) && states[0] == Start && k <= j < |states| && states[k] in kept
    requires ClosedSet(kept, pool)
    ensures states[j] in kept
  {
    for i := k to j
      invariant states[i] in kept
    {
      StepAt(pool, states, events, i);
      KeptStep(kept, pool, states[i], events[i], states[i + 1]);
    }
  }

  /** What such a set is. */
  ghost predicate ClosedSet(kept: iset<State>, pool: Pool)
    requires pool.Valid()
  {
    forall st, e, st' | st in kept && st in Good(pool) && st' in Successors(pool, st, e) :: st' in kept
  }

  lemma {:induction false} KeptStep(kept: iset<State>, pool: Pool, st: State, e: Event, st': State)
    requires pool.Valid() && st in kept && st in Good(pool) && st' in Successors(pool, st, e) && ClosedSet(kept, pool)
    ensures st' in kept
  {
  }

  lemma {:induction false} StepAt(pool: Pool, states: seq<State>, events: seq<Event>, j: nat)
    requires pool.Valid() && Run(pool, states, events) && states[0] == Start && j < |events|
    ensures states[j] in Good(pool) && states[j + 1] in Successors(pool, states[j], events[j])
  {
    InvAlongRun(pool, states, events, j);
  }

  /** After a Shutdown that no admitted session can overtake, nothing is ever leased or delivered again. */
  lemma {:induction false} ShutdownFinal(pool: Pool, states: seq<State>, events: seq<Event>, k: nat, j: nat)
    requires pool.Valid() && Run(pool, states, events) && states[0] == Start && k <= j < |states|
    requires ShutDown(states[k]) && NoneAdmitted(states[k])
    ensures states[j].leased == {} && states[j].table == map[] && states[j].delivered == states[k].delivered
  {
    var quiet := Quiet(states[k].delivered);
    forall st, e, st' | st in quiet && st in Good(pool) && st' in Successors(pool, st, e) ensures st' in quiet {
      QuietKept(pool, st, e, st');
    }
    StaysIn(quiet, pool, states, events, k, j);
    AllReturned(pool, states, events, j);
  }

  /** Without that condition Shutdown can return early: a session that saw the server open and has
      not yet joined the wait group goes on to take a lease. From every such state of every run the
      continuation exists. */
  lemma {:induction false} ShutdownOvertaken(pool: Pool, states: seq<State>, events: seq<Event>, k: nat, s: Sid)
    returns (after: seq<State>, more: seq<Event>)
    requires pool.Valid() && Run(pool, states, events) && states[0] == Start && k < |states|
    requires ShutDown(states[k]) && states[k].At(s).Admitted?
    ensures Run(pool, after, more) && after[0] == states[k]
    ensures after[|after| - 1].closed && after[|after| - 1].leased != {}
  {
    InvAlongRun(pool, states, events, k);
    AllReturned(pool, states, events, k);
    SmallPrefixRoom(pool.p4);
    var st := states[k];
    var counted := Move(st, s, Counted).(conns := 1);
    var host := st.next;
    var a := Assigned(pool.p4.Candidate(host), 0, 4, 32);
    var next' := if host + 1 >= pool.p4.MaxHosts() then 2 else host + 1;
    var held := Move(counted, s, Holding(a.addr)).(leased := {a.addr}, next := next',
                                                   given := st.given[s := a.addr]);
    assert AllocateSpec(pool.p4, pool.p6, counted.leased, counted.next, [], Leased(a), held.leased, held.next);
    TwoSteps(pool, st, s, counted, a, held);
    after, more := [st, counted, held], [Count(s), Allocate(s)];
  }

  lemma {:induction false} TwoSteps(pool: Pool, st: State, s: Sid, counted: State, a: Assigned, held: State)
    requires pool.Valid() && st.At(s).Admitted? && counted == Move(st, s, Counted).(conns := st.conns + 1)
    requires AllocateSpec(pool.p4, pool.p6, counted.leased, counted.next, [], Leased(a), held.leased, held.next)
    requires held == Move(counted, s, Holding(a.addr)).(leased := held.leased, next := held.next, given := counted.given[s := a.addr])
    ensures counted in Successors(pool, st, Count(s)) && held in Successors(pool, counted, Allocate(s))
  {
    assert Next(pool, st, Count(s), counted);
    assert Next(pool, counted, Allocate(s), held);
  }

  lemma {:induction false} RunAppend(pool: Pool, states: seq<State>, events: seq<Event>, after: seq<State>, more: seq<Event>)
    requires pool.Valid() && Run(pool, states, events) && Run(pool, after, more) && after[0] == states[|states| - 1]
    ensures Run(pool, states + after[1..], events + more)
  {
    var all, steps, n := states + after[1..], events + more, |events|;
    forall i | 0 <= i < |steps| ensures all[i + 1] in Successors(pool, all[i], steps[i]) {
      if i < n {
        assert all[i] == states[i] && all[i + 1] == states[i + 1] && steps[i] == events[i];
      } else {
        assert all[i] == after[i - n] && all[i + 1] == after[i - n + 1] && steps[i] == more[i - n];
      }
    }
  }

  /** It does happen, for every pool and every session: the server closes between a session's look
      at the closed flag and its joining of the wait group. */
  lemma {:induction false} OvertakenRun(pool: Pool, s: Sid) returns (states: seq<State>, events: seq<Event>, k: nat)
    requires pool.Valid()
    ensures Run(pool, states, events) && states[0] == Start && k < |states| && ShutDown(states[k])
    ensures states[|states| - 1].closed && states[|states| - 1].leased != {}
  {
    var admitted := Move(Start, s, Admitted);
    var closed := admitted.(closed := true);
    assert Next(pool, Start, Admit(s), admitted) && Next(pool, admitted, Close, closed);
    states, events, k := [Start, admitted, closed], [Admit(s), Close], 2;
    var after, more := ShutdownOvertaken(pool, states, events, k, s);
    RunAppend(pool, states, events, after, more);
    states, events := states + after[1..], events + more;
  }
}
