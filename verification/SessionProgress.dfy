/**
  The MASQUE sessions never get stuck (tunnel/masque/server.go): whatever has happened, every session
  can still go on to its end, and then the pool is full again.
*/
module SessionProgress {
  import opened Ipam
  import opened Sessions

  // ----- an allocation is always possible -----

  lemma {:induction false} FirstFree(p4: Prefix4, leased: set<Addr>, next: nat) returns (host: nat)
    requires p4.bits <= 30 && 2 <= next < p4.MaxHosts()
    requires exists h | 2 <= h < p4.MaxHosts() :: p4.Candidate(h) !in leased
    ensures 2 <= host < p4.MaxHosts() && p4.Candidate(host) !in leased
    ensures forall h | 2 <= h < p4.MaxHosts() && Before(next, h, host) :: p4.Candidate(h) in leased
  {
    var free :| 2 <= free < p4.MaxHosts() && p4.Candidate(free) !in leased;
    if h :| next <= h < p4.MaxHosts() && p4.Candidate(h) !in leased {
      host := FirstFrom(p4, leased, next, h);
    } else {
      host := FirstFrom(p4, leased, 2, free);
    }
  }

  lemma {:induction false} FirstFrom(p4: Prefix4, leased: set<Addr>, start: nat, free: nat) returns (host: nat)
    requires p4.bits <= 30 && start <= free && p4.Candidate(free) !in leased
    ensures start <= host <= free && p4.Candidate(host) !in leased
    ensures forall h | start <= h < host :: p4.Candidate(h) in leased
  {
    host := start;
    while p4.Candidate(host) in leased
      invariant start <= host <= free && forall h | start <= h < host :: p4.Candidate(h) in leased
      decreases free - host
    {
      host := host + 1;
    }
  }

  lemma {:induction false} CanAllocate(pool: Pool, leased: set<Addr>, next: nat) returns (r: Result, leased': set<Addr>, next': nat)
    requires pool.Valid() && 2 <= next < pool.p4.MaxHosts()
    ensures AllocateSpec(pool.p4, pool.p6, leased, next, [], r, leased', next')
  {
    if exists h | 2 <= h < pool.p4.MaxHosts() :: pool.p4.Candidate(h) !in leased {
      var host := FirstFree(pool.p4, leased, next);
      SmallPrefixRoom(pool.p4);
      var a := Assigned(pool.p4.Candidate(host), 0, 4, 32);
      r, leased', next' := Leased(a), leased + {a.addr}, if host + 1 >= pool.p4.MaxHosts() then 2 else host + 1;
    } else {
      r, leased', next' := Exhausted, leased, next;
    }
  }

  // ----- one session -----

  /** How far a session has come. */
  function Stage(p: Phase): nat {
    match p
    case Idle => 0
    case Admitted => 1
    case Counted => 2
    case Holding(_) => 3
    case Routing(_, _, _) => 4
    case Registered(_) => 5
    case Removed(_) => 6
    case Returned => 7
    case Ended => 8
  }

  /** The step takes the session further and leaves the others where they are. */
  ghost predicate Furthers(pool: Pool, st: State, s: Sid, e: Event, st': State)
    requires pool.Valid()
  {
    st' in Successors(pool, st, e) && Stage(st'.At(s)) > Stage(st.At(s)) && forall t | t != s :: st'.At(t) == st.At(t)
  }

  lemma {:induction false} Enters(pool: Pool, st: State, s: Sid) returns (e: Event, st': State)
    requires pool.Valid() && (st.At(s).Idle? || st.At(s).Admitted? || st.At(s).Holding?)
    ensures Furthers(pool, st, s, e, st')
  {
    match st.At(s) {
      case Idle => e, st' := if st.closed then Refuse(s) else Admit(s), Move(st, s, if st.closed then Ended else Admitted);
      case Admitted => e, st' := Count(s), Move(st, s, Counted).(conns := st.conns + 1);
      case Holding(a) => e, st' := Register(s), Move(st, s, Registered(a)).(table := st.table[a := s]);
    }
    assert Next(pool, st, e, st');
  }

  lemma {:induction false} Sends(pool: Pool, st: State, s: Sid) returns (e: Event, st': State)
    requires pool.Valid() && st.At(s).Routing?
    ensures Furthers(pool, st, s, e, st')
  {
    var p := st.At(s);
    e, st' := Send(s), Move(st, s, Registered(p.addr)).(delivered := st.delivered + [Delivery(s, p.to, p.packet)]);
    assert Next(pool, st, e, st');
  }

  lemma {:induction false} Leaves(pool: Pool, st: State, s: Sid) returns (e: Event, st': State)
    requires pool.Valid() && (st.At(s).Registered? || st.At(s).Removed? || (st.At(s).Returned? && st.conns > 0))
    ensures Furthers(pool, st, s, e, st')
  {
    match st.At(s) {
      case Registered(a) => e, st' := Unregister(s), Move(st, s, Removed(a)).(table := st.table - {a});
      case Removed(a) => e, st' := Release(s), Move(st, s, Returned).(leased := st.leased - {a});
      case Returned => e, st' := Finish(s), Move(st, s, Ended).(conns := st.conns - 1);
    }
    assert Next(pool, st, e, st');
  }

  /** A session inside is counted, and the cursor of the pool is on a host. */
  lemma {:induction false} Inside(pool: Pool, st: State, s: Sid)
    requires pool.Valid() && st in Good(pool)
    ensures 2 <= st.next < pool.p4.MaxHosts() && (st.At(s).Returned? ==> st.conns > 0)
  {
    if st.At(s).Returned? { assert s in Waiting(st); }
  }

  /** Some step takes the session further, whatever the others have done. */
  lemma {:induction false} NeverStuck(pool: Pool, st: State, s: Sid) returns (e: Event, st': State)
    requires pool.Valid() && st in Good(pool) && !st.At(s).Ended?
    ensures Furthers(pool, st, s, e, st')
  {
    var p := st.At(s);
    Inside(pool, st, s);
    if p.Idle? || p.Admitted? || p.Holding? {
      e, st' := Enters(pool, st, s);
    } else if p.Counted? {
      e, st' := Leases(pool, st, s);
    } else if p.Routing? {
      e, st' := Sends(pool, st, s);
    } else {
      e, st' := Leaves(pool, st, s);
    }
  }

  lemma {:induction false} Leases(pool: Pool, st: State, s: Sid) returns (e: Event, st': State)
    requires pool.Valid() && st.At(s).Counted? && 2 <= st.next < pool.p4.MaxHosts()
    ensures Furthers(pool, st, s, e, st')
  {
    var r, leased', next' := CanAllocate(pool, st.leased, st.next);
    e, st' := AllocateStep(pool, st, s, r, leased', next');
  }

  lemma {:induction false} AllocateStep(pool: Pool, st: State, s: Sid, r: Result, leased': set<Addr>, next': nat)
    returns (e: Event, st': State)
    requires pool.Valid() && st.At(s).Counted? && AllocateSpec(pool.p4, pool.p6, st.leased, st.next, [], r, leased', next')
    ensures Furthers(pool, st, s, e, st')
  {
    match r {
      case Leased(a) =>
        e, st' := Allocate(s), Move(st, s, Holding(a.addr)).(leased := leased', next := next', given := st.given[s := a.addr]);
      case Exhausted =>
        e, st' := PoolEmpty(s), Move(st, s, Returned).(leased := leased', next := next');
    }
    assert Next(pool, st, e, st');
  }

  /** From any reachable state one session can run to its end alone. */
  lemma {:induction false} CanLeave(pool: Pool, st: State, s: Sid) returns (after: seq<State>, more: seq<Event>)
    requires pool.Valid() && st in Good(pool)
    ensures Run(pool, after, more) && after[0] == st && after[|after| - 1] in Good(pool)
    ensures after[|after| - 1].At(s).Ended? && forall t | t != s :: after[|after| - 1].At(t) == st.At(t)
    decreases 8 - Stage(st.At(s))
  {
    if st.At(s).Ended? {
      after, more := [st], [];
    } else {
      var e, st' := NeverStuck(pool, st, s);
      InvKept(pool, st, e, st');
      after, more := CanLeave(pool, st', s);
      RunAppend(pool, [st, st'], [e], after, more);
      after, more := [st, st'] + after[1..], [e] + more;
    }
  }

  // ----- all of them -----

  /** The sessions under way. */
  function Live(st: State): set<Sid> { set s | s in st.phase && !st.phase[s].Idle? && !st.phase[s].Ended? }

  /** From any reachable state there is a way on in which every session under way comes to its end,
      and with it every lease is back, the table is empty and nobody is waited for. */
  lemma {:induction false} EveryoneCanLeave(pool: Pool, st: State) returns (after: seq<State>, more: seq<Event>)
    requires pool.Valid() && st in Good(pool)
    ensures Run(pool, after, more) && after[0] == st
    ensures var last := after[|after| - 1]; Live(last) == {} && last.leased == {} && last.table == map[] && last.conns == 0
    decreases Live(st)
  {
    if Live(st) == {} {
      after, more := [st], [];
      NoneLive(pool, st);
    } else {
      var s :| s in Live(st);
      var first, events := CanLeave(pool, st, s);
      var mid := first[|first| - 1];
      FewerLive(st, mid, s);
      after, more := EveryoneCanLeave(pool, mid);
      RunAppend(pool, first, events, after, more);
      after, more := first + after[1..], events + more;
    }
  }

  lemma {:induction false} FewerLive(st: State, mid: State, s: Sid)
    requires s in Live(st) && mid.At(s).Ended? && forall t | t != s :: mid.At(t) == st.At(t)
    ensures Live(mid) < Live(st)
  {
    forall t | t in Live(mid) ensures t in Live(st) { assert t != s ==> mid.At(t) == st.At(t); }
    assert s !in Live(mid);
  }

  lemma {:induction false} NoneLive(pool: Pool, st: State)
    requires pool.Valid() && st in Good(pool) && Live(st) == {}
    ensures st.leased == {} && st.table == map[] && st.conns == 0
  {
    forall s | s in st.phase ensures st.phase[s].Idle? || st.phase[s].Ended? { assert s !in Live(st); }
    assert Waiting(st) == {};
    ReturnedAt(pool, st);
  }
}
