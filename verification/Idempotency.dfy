/** Request deduplication (builtin/idempotency/idempotency.go) as a state machine. */
module Idempotency {
  // The middleware's Get / Lock / execute / Set or Unlock sequence. Every request runs in its own
  // goroutine; a step is one reading of the clock or one access to the map under its mutex. The
  // clock is read before the mutex is taken, so a step may work with an old reading.

  import opened IdempotencyStorage

  type Rid = nat

  datatype Config = Config(lifetime: nat, lockTimeout: nat)

  datatype Reply = Replayed(key: Key, data: Response) | Conflict | Fresh(data: Response) | Error | Crashed

  /** Where a request stands. Deadline is the expiry of the lock it took. */
  datatype Phase =
    | Idle
    | Checking(key: Key, now: int)
    | Missed(key: Key)
    | Locking(key: Key, now: int)
    | Executing(key: Key, deadline: int)
    | Succeeded(key: Key, deadline: int, data: Response)
    | Storing(key: Key, deadline: int, data: Response, now: int)
    | Failed(key: Key, deadline: int)
    | Done(reply: Reply)
  {
    /** From taking the lock until storing the response or giving the lock back. */
    predicate Busy() { Executing? || Succeeded? || Storing? || Failed? }
  }

  /** A stored success and the moment until which it is to be replayed. */
  datatype Success = Success(key: Key, data: Response, until: int)

  datatype State = State(clock: int, entries: Entries, phase: map<Rid, Phase>, history: seq<Success>) {
    function At(r: Rid): Phase { if r in phase then phase[r] else Idle }
  }

  datatype Event =
    | Arrive(r: Rid, key: Key) | Check(r: Rid) | ReadClock(r: Rid) | Acquire(r: Rid)
    | Succeed(r: Rid, data: Response) | Fail(r: Rid) | Crash(r: Rid)
    | ReadClockAgain(r: Rid) | Store(r: Rid) | Unlock(r: Rid)
    | Tick(to: int)

  function Move(st: State, r: Rid, p: Phase): State {
    st.(phase := st.phase[r := p])
  }

  ghost predicate Next(cfg: Config, st: State, e: Event, st': State) {
    match e
    case Arrive(r, key) => st.At(r).Idle? && st' == Move(st, r, Checking(key, st.clock))
    case Check(r) =>
      && st.At(r).Checking?
      && var p := st.At(r);
         var hit := Cached(st.entries, p.key, p.now);
         st' == Move(st, r, if hit.Some? then Done(Replayed(p.key, hit.value)) else Missed(p.key))
    case ReadClock(r) => st.At(r).Missed? && st' == Move(st, r, Locking(st.At(r).key, st.clock))
    case Acquire(r) =>
      && st.At(r).Locking?
      && var p := st.At(r);
         if Free(st.entries, p.key, p.now) then
           var deadline := p.now + cfg.lockTimeout;
           st' == Move(st, r, Executing(p.key, deadline)).(entries := st.entries[p.key := InFlight(deadline)])
         else st' == Move(st, r, Done(Conflict))
    case Succeed(r, data) => st.At(r).Executing? && st' == Move(st, r, Succeeded(st.At(r).key, st.At(r).deadline, data))
    case Fail(r) => st.At(r).Executing? && st' == Move(st, r, Failed(st.At(r).key, st.At(r).deadline))
    case Crash(r) => st.At(r).Executing? && st' == Move(st, r, Done(Crashed))
    case ReadClockAgain(r) =>
      && st.At(r).Succeeded?
      && var p := st.At(r); st' == Move(st, r, Storing(p.key, p.deadline, p.data, st.clock))
    case Store(r) =>
      && st.At(r).Storing?
      && var p := st.At(r);
         var until := p.now + cfg.lifetime;
         st' == Move(st, r, Done(Fresh(p.data))).(
           entries := st.entries[p.key := Stored(p.data, until)],
           history := st.history + [Success(p.key, p.data, until)])
    case Unlock(r) =>
      st.At(r).Failed? && st' == Move(st, r, Done(Error)).(entries := Unlocked(st.entries, st.At(r).key))
    case Tick(to) => st.clock <= to && st' == st.(clock := to)
  }

  // ----- the inductive invariant -----

  /** Every handler is still within its lock lifetime. */
  ghost predicate Timely(st: State) {
    forall r | r in st.phase && st.phase[r].Busy() :: st.clock <= st.phase[r].deadline
  }

  /** The lock of a busy request is in the map, and no other request has one on its key. */
  ghost predicate LocksOwned(st: State) {
    && (forall r | r in st.phase && st.phase[r].Busy() ::
          st.phase[r].key in st.entries && st.entries[st.phase[r].key] == InFlight(st.phase[r].deadline))
    && (forall r, s | r in st.phase && s in st.phase && st.phase[r].Busy() && st.phase[s].Busy() && r != s ::
          st.phase[r].key != st.phase[s].key)
  }

  /** A success is replayable from the map until it expires. */
  predicate Kept(st: State, h: Success) {
    st.clock > h.until || (h.key in st.entries && st.entries[h.key] == Stored(h.data, h.until))
  }

  ghost predicate HistoryKept(st: State) {
    && (forall i | 0 <= i < |st.history| :: Kept(st, st.history[i]))
    && (forall k | k in st.entries && st.entries[k].Stored? :: Success(k, st.entries[k].data, st.entries[k].expiresAt) in st.history)
  }

  predicate Recorded(st: State, key: Key, data: Response) {
    exists i | 0 <= i < |st.history| :: st.history[i].key == key && st.history[i].data == data
  }

  ghost predicate RepliesRecorded(st: State) {
    forall r | r in st.phase && st.phase[r].Done? && st.phase[r].reply.Replayed? ::
      Recorded(st, st.phase[r].reply.key, st.phase[r].reply.data)
  }

  /** Clock readings are not from the future. */
  ghost predicate ReadingsPast(st: State) {
    forall r | r in st.phase && (st.phase[r].Checking? || st.phase[r].Locking? || st.phase[r].Storing?) ::
      st.phase[r].now <= st.clock
  }

  ghost function Good(): iset<State> {
    iset st | LocksOwned(st) && HistoryKept(st) && RepliesRecorded(st) && ReadingsPast(st)
  }

  ghost function Successors(cfg: Config, st: State, e: Event): iset<State> {
    iset st' | Next(cfg, st, e, st')
  }

  function Start(clock: int): State { State(clock, map[], map[], []) }

  lemma {:induction false} AcquireKeepsLocks(cfg: Config, st: State, r: Rid, st': State)
    requires LocksOwned(st) && ReadingsPast(st) && Timely(st) && Next(cfg, st, Acquire(r), st')
    ensures LocksOwned(st')
  {
  }

  /** Giving up one's own entry, or leaving the map alone without becoming busy. */
  lemma {:induction false} LeaveKeepsLocks(st: State, r: Rid, p: Phase, st': State)
    requires LocksOwned(st) && st'.phase == st.phase[r := p] && !p.Busy()
    requires forall k :: (st.At(r).Busy() ==> k != st.At(r).key) ==>
      (k in st'.entries <==> k in st.entries) && (k in st.entries && k in st'.entries ==> st'.entries[k] == st.entries[k])
    ensures LocksOwned(st')
  {
  }

  lemma {:induction false} StayKeepsLocks(st: State, r: Rid, p: Phase, st': State)
    requires LocksOwned(st) && st'.phase == st.phase[r := p] && st'.entries == st.entries
    requires p.Busy() ==> st.At(r).Busy() && p.key == st.At(r).key && p.deadline == st.At(r).deadline
    ensures LocksOwned(st')
  {
  }

  lemma {:induction false} LocksKept(cfg: Config, st: State, e: Event, st': State)
    requires LocksOwned(st) && ReadingsPast(st) && Timely(st) && Next(cfg, st, e, st')
    ensures LocksOwned(st')
  {
    match e
    case Acquire(r) => AcquireKeepsLocks(cfg, st, r, st');
    case Store(r) => LeaveKeepsLocks(st, r, st'.phase[r], st');
    case Unlock(r) => LeaveKeepsLocks(st, r, st'.phase[r], st');
    case Tick(_) =>
    case _ => StayKeepsLocks(st, e.r, st'.phase[e.r], st');
  }

  lemma {:induction false} HistoryStays(cfg: Config, st: State, e: Event, st': State)
    requires LocksOwned(st) && HistoryKept(st) && ReadingsPast(st) && Next(cfg, st, e, st')
    ensures HistoryKept(st')
  {
    if e.Store? {
      assert st'.history[|st.history|] == Success(st.At(e.r).key, st.At(e.r).data, st.At(e.r).now + cfg.lifetime);
      assert forall i | 0 <= i < |st.history| :: st'.history[i] == st.history[i] && Kept(st, st.history[i]);
      assert forall h :: h in st.history ==> h in st'.history;
    } else {
      assert st'.history == st.history;
    }
  }

  lemma {:induction false} RepliesStay(cfg: Config, st: State, e: Event, st': State)
    requires HistoryKept(st) && RepliesRecorded(st) && Next(cfg, st, e, st')
    ensures RepliesRecorded(st')
  {
    assert forall i | 0 <= i < |st.history| :: i < |st'.history| && st'.history[i] == st.history[i];
  }

  lemma {:induction false} ReadingsStay(cfg: Config, st: State, e: Event, st': State)
    requires ReadingsPast(st) && Next(cfg, st, e, st')
    ensures ReadingsPast(st')
  {
  }

  lemma {:induction false} GoodKept(cfg: Config, st: State, e: Event, st': State)
    requires st in Good() && Timely(st) && st' in Successors(cfg, st, e)
    ensures st' in Good()
  {
    LocksKept(cfg, st, e, st');
    HistoryStays(cfg, st, e, st');
    RepliesStay(cfg, st, e, st');
    ReadingsStay(cfg, st, e, st');
  }

  // ----- runs -----

  /** A run from an empty store in which every handler stays within its lock lifetime. */
  ghost predicate TimelyRun(cfg: Config, states: seq<State>, events: seq<Event>) {
    && |states| == |events| + 1 && states[0] == Start(states[0].clock)
    && (forall i | 0 <= i < |events| :: states[i + 1] in Successors(cfg, states[i], events[i]))
    && (forall i | 0 <= i < |states| :: Timely(states[i]))
  }

  lemma {:induction false} GoodAlongRun(cfg: Config, states: seq<State>, events: seq<Event>, k: nat)
    requires TimelyRun(cfg, states, events) && k < |states|
    ensures states[k] in Good()
  {
    if k > 0 {
      GoodAlongRun(cfg, states, events, k - 1);
      GoodKept(cfg, states[k - 1], events[k - 1], states[k]);
    }
  }

  /** At most one execution per key is in flight, and every replay returns a stored success of its key. */
  lemma {:induction false} ExecutionsExclusive(cfg: Config, states: seq<State>, events: seq<Event>, k: nat)
    requires TimelyRun(cfg, states, events) && k < |states|
    ensures forall r, s | r != s && states[k].At(r).Busy() && states[k].At(s).Busy() :: states[k].At(r).key != states[k].At(s).key
    ensures forall r | states[k].At(r).Done? && states[k].At(r).reply.Replayed? ::
      Recorded(states[k], states[k].At(r).reply.key, states[k].At(r).reply.data)
  {
    GoodAlongRun(cfg, states, events, k);
  }

  /** An execution starts only when every earlier success of its key has outlived its lifetime. */
  lemma {:induction false} NoSecondExecution(cfg: Config, states: seq<State>, events: seq<Event>, k: nat, h: Success)
    requires TimelyRun(cfg, states, events) && k < |events|
    requires events[k].Acquire? && states[k + 1].At(events[k].r).Executing?
    requires h in states[k].history && h.key == states[k].At(events[k].r).key
    ensures states[k].clock > h.until
  {
    GoodAlongRun(cfg, states, events, k);
    var st, r := states[k], events[k].r;
    assert Next(cfg, st, events[k], states[k + 1]);
    assert Kept(st, h);
  }

  /** A success is stored for its whole lifetime, counted from a clock reading taken after the
      handler returned. */
  lemma {:induction false} SuccessRecorded(cfg: Config, states: seq<State>, events: seq<Event>, k: nat)
    requires TimelyRun(cfg, states, events) && k < |events| && events[k].Store?
    ensures var p := states[k].At(events[k].r);
      states[k + 1].history == states[k].history + [Success(p.key, p.data, p.now + cfg.lifetime)] && p.now <= states[k].clock
  {
    GoodAlongRun(cfg, states, events, k);
    assert Next(cfg, states[k], events[k], states[k + 1]);
  }

  /** Until then a request that checks with a current clock is answered by that very response. */
  lemma {:induction false} LiveSuccessReplayed(cfg: Config, states: seq<State>, events: seq<Event>, k: nat, h: Success, r: Rid)
    requires TimelyRun(cfg, states, events) && k < |events| && events[k] == Check(r)
    requires h in states[k].history && states[k].At(r).Checking? && states[k].At(r).key == h.key && states[k].clock <= h.until
    ensures states[k + 1].At(r) == Done(Replayed(h.key, h.data))
  {
    GoodAlongRun(cfg, states, events, k);
    assert Next(cfg, states[k], events[k], states[k + 1]);
    assert Kept(states[k], h);
  }

  // ----- handlers that outlive their lock -----

  /** With a busy request on the key, another one gets the lock exactly when its clock reading is
      past the first one's deadline. */
  lemma {:induction false} SecondLock(cfg: Config, st: State, r: Rid, s: Rid, st': State)
    requires st in Good() && st' in Successors(cfg, st, Acquire(s))
    requires st.At(r).Busy() && st.At(s).Locking? && st.At(s).key == st.At(r).key
    ensures st'.At(s).Executing? <==> st.At(r).deadline < st.At(s).now
  {
    assert Next(cfg, st, Acquire(s), st');
  }

  /** So a late handler is run again beside itself, and if it then fails, giving "its" lock back
      frees the key for a third: from every good state with a busy request past its deadline. */
  lemma {:induction false} LateHandler(cfg: Config, st: State, r: Rid, s: Rid) returns (both: State, freed: State)
    requires st in Good() && st.At(r).Executing? && st.At(r).deadline < st.clock && st.At(s).Idle?
    ensures both.At(r).Busy() && both.At(s).Busy() && both.At(r).key == both.At(s).key == st.At(r).key
    ensures freed.At(s).Busy() && freed.At(s).key == st.At(r).key && freed.At(s).key !in freed.entries
    ensures Reaches(cfg, st, both) && Reaches(cfg, both, freed)
  {
    var key := st.At(r).key;
    var a := Move(st, s, Checking(key, st.clock));
    var b := Move(a, s, Missed(key));
    var c := Move(b, s, Locking(key, st.clock));
    var deadline := st.clock + cfg.lockTimeout;
    both := Move(c, s, Executing(key, deadline)).(entries := st.entries[key := InFlight(deadline)]);
    assert Next(cfg, st, Arrive(s, key), a) && Next(cfg, a, Check(s), b) && Next(cfg, b, ReadClock(s), c) && Next(cfg, c, Acquire(s), both);
    Chain(cfg, [st, a, b, c, both], [Arrive(s, key), Check(s), ReadClock(s), Acquire(s)]);
    var d := Move(both, r, Failed(key, st.At(r).deadline));
    freed := Move(d, r, Done(Error)).(entries := Unlocked(d.entries, key));
    assert Next(cfg, both, Fail(r), d) && Next(cfg, d, Unlock(r), freed);
    Chain(cfg, [both, d, freed], [Fail(r), Unlock(r)]);
  }

  /** Such states are reached: from every start, with every configuration, by one request whose
      handler is still running when its lock has expired. */
  lemma {:induction false} LateReached(cfg: Config, clock: int, key: Key, r: Rid) returns (late: State)
    ensures Reaches(cfg, Start(clock), late) && late in Good()
    ensures late.At(r).Executing? && late.At(r).key == key && late.At(r).deadline < late.clock
    ensures forall s | s != r :: late.At(s).Idle?
  {
    var deadline := clock + cfg.lockTimeout;
    var start := Start(clock);
    var a := Move(start, r, Checking(key, clock));
    var b := Move(a, r, Missed(key));
    var c := Move(b, r, Locking(key, clock));
    var d := Move(c, r, Executing(key, deadline)).(entries := map[key := InFlight(deadline)]);
    late := d.(clock := deadline + 1);
    assert Next(cfg, start, Arrive(r, key), a) && Next(cfg, a, Check(r), b) && Next(cfg, b, ReadClock(r), c);
    assert Next(cfg, c, Acquire(r), d) && Next(cfg, d, Tick(deadline + 1), late);
    GoodAlongRun(cfg, [start, a, b, c, d], [Arrive(r, key), Check(r), ReadClock(r), Acquire(r)], 4);
    GoodKept(cfg, d, Tick(deadline + 1), late);
    Chain(cfg, [start, a, b, c, d, late], [Arrive(r, key), Check(r), ReadClock(r), Acquire(r), Tick(deadline + 1)]);
  }

  /** Two executions of one key at once, and the second one's lock taken from it, from an empty store. */
  lemma {:induction false} TwoExecutions(cfg: Config, clock: int, key: Key, r: Rid, s: Rid)
    returns (late: State, both: State, freed: State)
    requires r != s
    ensures Reaches(cfg, Start(clock), late) && Reaches(cfg, late, both) && Reaches(cfg, both, freed)
    ensures both.At(r).Busy() && both.At(s).Busy() && both.At(r).key == both.At(s).key == key
    ensures freed.At(s).Busy() && freed.At(s).key == key && key !in freed.entries
  {
    late := LateReached(cfg, clock, key, r);
    both, freed := LateHandler(cfg, late, r, s);
  }

  /** Some sequence of events leads from one state to another. */
  ghost predicate Reaches(cfg: Config, from: State, to: State) {
    exists states: seq<State>, events: seq<Event> ::
      Path(cfg, states, events) && states[0] == from && states[|events|] == to
  }

  ghost predicate Path(cfg: Config, states: seq<State>, events: seq<Event>) {
    |states| == |events| + 1 && forall i | 0 <= i < |events| :: Next(cfg, states[i], events[i], states[i + 1])
  }

  lemma {:induction false} Chain(cfg: Config, states: seq<State>, events: seq<Event>)
    requires Path(cfg, states, events)
    ensures Reaches(cfg, states[0], states[|events|])
  {
  }
}
