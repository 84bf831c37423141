/** The executor pool of internal/daemon/executors.go, the executor's skeleton in
    internal/engine/execute.go and the renewal loop of internal/engine/leasekeeper.go as one state machine:
    goroutines, the keeper's book and the run rows move in atomic steps, in any interleaving, beside other
    processes that claim, finish, reap and requeue. */
module Protocol {
  import opened Lease
  import P = Pool
  import opened Options

  type GoId = nat

  /** One registered claim; ids stand for the identity of the handle. */
  datatype Handle = Handle(id: nat, epoch: int)

  /** Where one pool goroutine stands. */
  datatype Pc =
    | Starting                              // in ExecuteRun, nothing claimed
    | Claimed                               // the claim landed, the keeper does not know yet
    | Driving(handle: Handle)               // the step loop under the lease
    | HandBack(attempt: nat)                // head of the handback loop
    | Draining(attempt: nat, ref: LeaseRef) // holding the token it read from the keeper
    | Forgetting(ref: LeaseRef)             // the store answered without an error
    | Leaving(failed: bool)                 // execute is done, with or without a handback error
    | Releasing                             // off the driving book, still on its slot

  datatype Go = Go(run: RunId, claim: Option<int>, lostClaim: bool, pc: Pc)

  /** The renewal goroutine: between ticks, with a snapshot, or working through the store's answer. */
  datatype Tick =
    | Idle
    | Snapped(snapshot: map<RunId, Handle>)
    | Answered(snapshot: map<RunId, Handle>, live: map<RunId, int>, todo: set<RunId>)

  datatype State = State(
    me: Owner,
    workers: nat,
    rows: map<RunId, Row>,
    driving: set<RunId>,
    slots: nat,
    gos: map<GoId, Go>,
    held: map<RunId, Handle>,
    handles: nat,
    lost: set<nat>,
    tick: Tick,
    reported: set<(RunId, int)>)            // claims a goroutine left behind with a handback error
  {
    function Ref(epoch: int): LeaseRef {
      LeaseRef(me, epoch)
    }

    predicate At(g: GoId, pc: Pc) {
      g in gos && gos[g].pc == pc
    }
  }

  /** The pool's own critical sections. */
  datatype PoolEvent =
    | Submit(g: GoId, run: RunId)
    | Refuse(run: RunId)
    | Retire(g: GoId)
    | ReleaseSlot(g: GoId)

  /** One goroutine in ExecuteRun and then in the handback loop. */
  datatype Move =
    | Claim
    | LoseClaim
    | EndUnclaimed
    | Hold
    | Finish
    | StopDriving
    | ReadLease
    | Drain
    | DrainFails(landed: bool)
    | ForgetLease

  /** The renewal goroutine. */
  datatype TickEvent =
    | Snapshot
    | Answer
    | AnswerFails
    | Confirm(run: RunId)
    | SignalLost(run: RunId)
    | DropEntry(run: RunId)
    | TickDone

  /** Everyone else: other processes, the reaper, and whoever requeues or cancels. */
  datatype WorldEvent =
    | OtherClaims(owner: Owner)
    | Reap(requeue: bool)
    | OtherEnds
    | OtherDrains
    | Requeue
    | CancelQueued

  datatype Event =
    | Pool(p: PoolEvent)
    | Executor(g: GoId, m: Move)
    | Renewer(k: TickEvent)
    | World(run: RunId, w: WorldEvent)

  predicate InPool(go: Go) {
    !go.pc.Releasing?
  }

  /** The renewal tick still has to answer for this entry, and the store does not confirm it. */
  predicate Unconfirmed(tick: Tick, run: RunId) {
    tick.Answered? && run in tick.todo && run in tick.snapshot
    && !Confirmed(tick.live, run, tick.snapshot[run].epoch)
  }

  // ----- what each step needs

  predicate PoolEnabled(s: State, p: PoolEvent) {
    match p
    case Submit(g, run) => run in s.rows && run !in s.driving && s.slots < s.workers && g !in s.gos
    case Refuse(run) => run in s.driving || s.slots >= s.workers
    case Retire(g) => g in s.gos && s.gos[g].pc.Leaving?
    case ReleaseSlot(g) => g in s.gos && s.gos[g].pc.Releasing? && s.slots > 0
  }

  predicate MoveEnabled(s: State, go: Go, m: Move) {
    go.run in s.rows &&
    match m
    case Claim => go.pc.Starting? && s.rows[go.run].state.Queued?
    case LoseClaim => go.pc.Starting?
    case EndUnclaimed => go.pc.Starting?
    case Hold => go.pc.Claimed? && go.claim.Some?
    case Finish => go.pc.Driving? && go.claim.Some? && Lease.Holds(s.rows[go.run], s.Ref(go.claim.value))
    case StopDriving => go.pc.Driving?
    case ReadLease => go.pc.HandBack?
    case Drain => go.pc.Draining?
    case DrainFails(_) => go.pc.Draining?
    case ForgetLease => go.pc.Forgetting?
  }

  predicate TickEnabled(s: State, k: TickEvent) {
    match k
    case Snapshot => s.tick.Idle?
    case Answer => s.tick.Snapped?
    case AnswerFails => s.tick.Snapped?
    case Confirm(run) => s.tick.Answered? && run in s.tick.todo && !Unconfirmed(s.tick, run)
    case SignalLost(run) => Unconfirmed(s.tick, run)
    case DropEntry(run) => Unconfirmed(s.tick, run) && s.tick.snapshot[run].id in s.lost
    case TickDone => s.tick.Answered? && s.tick.todo == {}
  }

  predicate WorldEnabled(me: Owner, row: Row, w: WorldEvent) {
    match w
    case OtherClaims(owner) => row.state.Queued? && owner != me
    case Reap(_) => row.state.Running?
    case OtherEnds => row.state.Running? && row.owner != me
    case OtherDrains => row.state.Running? && row.owner != me
    case Requeue => row.state.Ended?
    case CancelQueued => row.state.Queued?
  }

  predicate Enabled(s: State, e: Event) {
    match e
    case Pool(p) => PoolEnabled(s, p)
    case Executor(g, m) => g in s.gos && MoveEnabled(s, s.gos[g], m)
    case Renewer(k) => TickEnabled(s, k)
    case World(run, w) => run in s.rows && WorldEnabled(s.me, s.rows[run], w)
  }

  // ----- what each step does

  function PoolStep(s: State, p: PoolEvent): State
    requires PoolEnabled(s, p)
  {
    match p
    case Submit(g, run) =>
      s.(slots := s.slots + 1, driving := s.driving + {run}, gos := s.gos[g := Go(run, None, false, Starting)])
    case Refuse(_) => s
    case Retire(g) => s.(gos := s.gos[g := s.gos[g].(pc := Releasing)], driving := s.driving - {s.gos[g].run})
    case ReleaseSlot(g) => s.(slots := s.slots - 1, gos := s.gos - {g})
  }

  /** The goroutine after its move. */
  function MovedGo(s: State, go: Go, m: Move): Go
    requires MoveEnabled(s, go, m)
  {
    match m
    case Claim => go.(claim := Some(ClaimedRow(s.rows[go.run], s.me).epoch), pc := Claimed)
    case LoseClaim => go.(lostClaim := true, pc := Leaving(false))
    case EndUnclaimed => go.(pc := HandBack(0))
    case Hold => go.(pc := Driving(Handle(s.handles, go.claim.value)))
    case Finish => go.(pc := HandBack(0))
    case StopDriving => go.(pc := HandBack(0))
    case ReadLease =>
      if go.pc.attempt >= HAND_BACK_ATTEMPTS then go.(pc := Leaving(true))
      else if go.run !in s.held then go.(pc := Leaving(false))
      else go.(pc := Draining(go.pc.attempt, s.Ref(s.held[go.run].epoch)))
    case Drain => go.(pc := Forgetting(go.pc.ref))
    case DrainFails(_) => go.(pc := HandBack(go.pc.attempt + 1))
    case ForgetLease => go.(pc := Leaving(false))
  }

  /** Its row after the move. */
  function MovedRow(s: State, go: Go, m: Move): Row
    requires MoveEnabled(s, go, m)
  {
    match m
    case Claim => ClaimedRow(s.rows[go.run], s.me)
    case Finish => FinishedRow(s.rows[go.run], s.Ref(go.claim.value))
    case Drain => DrainedRow(s.rows[go.run], go.pc.ref)
    case DrainFails(landed) => if landed then DrainedRow(s.rows[go.run], go.pc.ref) else s.rows[go.run]
    case _ => s.rows[go.run]
  }

  /** The keeper's book after the move. */
  function MovedBook(s: State, go: Go, m: Move): map<RunId, Handle>
    requires MoveEnabled(s, go, m)
  {
    match m
    case Hold => s.held[go.run := Handle(s.handles, go.claim.value)]
    case ForgetLease => Forgotten(s.held, (h: Handle) => h.epoch, go.run, go.pc.ref.epoch)
    case _ => s.held
  }

  function MoveStep(s: State, g: GoId, m: Move): State
    requires g in s.gos && MoveEnabled(s, s.gos[g], m)
  {
    var go := s.gos[g];
    var gaveUp := m.ReadLease? && go.pc.attempt >= HAND_BACK_ATTEMPTS && go.claim.Some?;
    s.(gos := s.gos[g := MovedGo(s, go, m)],
       rows := s.rows[go.run := MovedRow(s, go, m)],
       held := MovedBook(s, go, m),
       handles := if m.Hold? then s.handles + 1 else s.handles,
       reported := if gaveUp then s.reported + {(go.run, go.claim.value)} else s.reported)
  }

  function OwnRows(s: State): map<RunId, int> {
    map run | run in s.rows && s.rows[run].state.Running? && s.rows[run].owner == s.me :: s.rows[run].epoch
  }

  function TickStep(s: State, k: TickEvent): State
    requires TickEnabled(s, k)
  {
    match k
    case Snapshot => s.(tick := if |s.held| == 0 then Idle else Snapped(s.held))
    case Answer => s.(tick := Answered(s.tick.snapshot, OwnRows(s), s.tick.snapshot.Keys))
    case AnswerFails => s.(tick := Idle)
    case Confirm(run) => s.(tick := s.tick.(todo := s.tick.todo - {run}))
    case SignalLost(run) => s.(lost := s.lost + {s.tick.snapshot[run].id})
    case DropEntry(run) =>
      s.(held := Dropped(s.held, run, s.tick.snapshot[run]), tick := s.tick.(todo := s.tick.todo - {run}))
    case TickDone => s.(tick := Idle)
  }

  function WorldRow(row: Row, w: WorldEvent): Row {
    match w
    case OtherClaims(owner) => ClaimedRow(row, owner)
    case Reap(requeue) => ReapedRow(row, requeue)
    case OtherEnds => Row(Ended, "", row.epoch)
    case OtherDrains => Row(Queued, "", row.epoch + 1)
    case Requeue => Row(Queued, "", row.epoch + 1)
    case CancelQueued => row.(state := Ended)
  }

  function Step(s: State, e: Event): State
    requires Enabled(s, e)
  {
    match e
    case Pool(p) => PoolStep(s, p)
    case Executor(g, m) => MoveStep(s, g, m)
    case Renewer(k) => TickStep(s, k)
    case World(run, w) => s.(rows := s.rows[run := WorldRow(s.rows[run], w)])
  }

  // ----- runs

  predicate Init(s: State) {
    s.driving == {} && s.slots == 0 && s.gos == map[] && s.held == map[] && s.lost == {} && s.tick.Idle?
    && s.reported == {} && forall run <- s.rows :: !(s.rows[run].state.Running? && s.rows[run].owner == s.me)
  }

  /** A run: a start and the events that follow, each enabled where it happens. */
  ghost predicate Reaches(s: State, events: seq<Event>, t: State) {
    if events == [] then t == s
    else
      var n := |events| - 1;
      exists u :: Reaches(s, events[..n], u) && Enabled(u, events[n]) && t == Step(u, events[n])
  }

  /** A pool event is enabled where the pool's own method takes it, and does to the books what that does. */
  lemma PoolEventsAreThePools(s: State, p: PoolEvent)
    requires PoolEnabled(s, p)
    ensures var t := PoolStep(s, p);
            var before, after := P.Books(s.slots, s.driving), P.Books(t.slots, t.driving);
            match p
            case Submit(_, run) => P.CanStart(before, s.workers, run) && after == P.Started(before, run)
            case Refuse(run) => !P.CanStart(before, s.workers, run) && after == before
            case Retire(g) => after == P.Retired(before, s.gos[g].run)
            case ReleaseSlot(_) => after == P.Freed(before)
  {
  }

  // ----- the invariant

  /** The pool's books: a goroutine per slot, a run per driving goroutine, never two on one run. */
  ghost predicate Books(s: State) {
    Counted(s) && Enlisted(s) && Apart(s) && Driven(s)
  }

  predicate Counted(s: State) {
    s.slots == |s.gos| && s.slots <= s.workers
  }

  predicate Enlisted(s: State) {
    forall g <- s.gos :: InPool(s.gos[g]) ==> s.gos[g].run in s.driving && s.gos[g].run in s.rows
  }

  predicate Apart(s: State) {
    forall a, b :: a in s.gos && b in s.gos && a != b && InPool(s.gos[a]) && InPool(s.gos[b]) ==>
      s.gos[a].run != s.gos[b].run
  }

  predicate Driven(s: State) {
    forall run <- s.driving :: exists g :: g in s.gos && InPool(s.gos[g]) && s.gos[g].run == run
  }

  /** Tokens in the book and in a snapshot were issued for their run, under distinct handles. */
  ghost predicate Tokens(s: State) {
    (forall run <- s.held :: run in s.rows && s.held[run].epoch <= s.rows[run].epoch && s.held[run].id < s.handles)
    && (!s.tick.Idle? ==> forall run <- s.tick.snapshot ::
          run in s.rows && s.tick.snapshot[run].epoch <= s.rows[run].epoch && s.tick.snapshot[run].id < s.handles)
    && (s.tick.Answered? ==> s.tick.todo <= s.tick.snapshot.Keys)
  }

  /** What the store left unconfirmed is gone for good. */
  ghost predicate Answers(s: State) {
    forall run :: Unconfirmed(s.tick, run) && run in s.rows ==> Gone(s.rows[run], s.Ref(s.tick.snapshot[run].epoch))
  }

  /** One goroutine's standing against its row and the keeper's book. */
  ghost predicate Standing(s: State, go: Go) {
    (go.claim.Some? && go.run in s.rows ==>
       var ref := s.Ref(go.claim.value);
       go.claim.value <= s.rows[go.run].epoch
       && (go.pc.Driving? || go.pc.HandBack? || go.pc.Draining? ==>
             (Lease.Holds(s.rows[go.run], ref) ==> go.run in s.held)
             && (go.run in s.held ==> s.held[go.run].epoch == go.claim.value))
       && (go.pc.Driving? ==>
             go.pc.handle.epoch == go.claim.value
             && (go.run !in s.held || s.held[go.run] != go.pc.handle ==> go.pc.handle.id in s.lost))
       && (go.pc.Draining? ==> go.pc.ref == ref)
       && (go.pc.Forgetting? ==> go.pc.ref == ref)
       && (go.pc == Leaving(false) ==> Gone(s.rows[go.run], ref))
       && (go.pc == Leaving(true) ==> (go.run, go.claim.value) in s.reported))
    && (go.claim.None? ==> !go.pc.Claimed? && !go.pc.Driving?)
    && (go.claim.Some? ==> !go.pc.Starting? && !go.lostClaim)
    && (go.lostClaim ==> go.pc == Leaving(false) || go.pc.Releasing?)
    && (go.pc.Draining? && go.run in s.rows ==> go.pc.ref.owner == s.me && go.pc.ref.epoch <= s.rows[go.run].epoch)
    && (go.pc.Forgetting? && go.run in s.rows ==> go.pc.ref.owner == s.me && Gone(s.rows[go.run], go.pc.ref))
  }

  ghost predicate Standings(s: State) {
    forall g <- s.gos :: Standing(s, s.gos[g])
  }

  /** Nothing runs unaccounted: a row under this owner belongs to a goroutine in the pool that claimed it
      at this token, or its goroutine reported that it could not hand it back. */
  ghost predicate Accounted(s: State) {
    forall run <- s.rows :: s.rows[run].state.Running? && s.rows[run].owner == s.me ==>
      (run, s.rows[run].epoch) in s.reported || exists g :: Claimant(s, g, run, s.rows[run].epoch)
  }

  ghost predicate Inv(s: State) {
    Books(s) && Tokens(s) && Answers(s) && Standings(s) && Accounted(s)
  }

  lemma InitHolds(s: State)
    requires Init(s)
    ensures Inv(s)
  {
  }

  // ----- every step keeps the books

  lemma DriversCovered(s: State, t: State)
    requires Books(s)
    requires forall x <- s.gos :: InPool(s.gos[x]) && s.gos[x].run in t.driving ==>
               x in t.gos && InPool(t.gos[x]) && t.gos[x].run == s.gos[x].run
    ensures forall run <- t.driving :: run in s.driving ==>
              exists x :: x in t.gos && InPool(t.gos[x]) && t.gos[x].run == run
  {
  }

  lemma PoolKeepsBooks(s: State, p: PoolEvent)
    requires Books(s) && PoolEnabled(s, p)
    ensures Books(PoolStep(s, p))
  {
    hide Books;
    match p
    case Submit(g, run) => SubmitKeepsBooks(s, g, run);
    case Retire(g) => RetireKeepsBooks(s, g);
    case ReleaseSlot(g) => ReleaseKeepsBooks(s, g);
    case Refuse(_) =>
  }

  lemma SubmitKeepsBooks(s: State, g: GoId, run: RunId)
    requires Books(s) && PoolEnabled(s, Submit(g, run))
    ensures Books(PoolStep(s, Submit(g, run)))
  {
    hide Books;
    NewGoKeepsBooks(s, PoolStep(s, Submit(g, run)), g, run);
  }

  lemma NewGoKeepsBooks(s: State, t: State, g: GoId, run: RunId)
    requires Books(s) && run in s.rows && run !in s.driving && s.slots < s.workers && g !in s.gos
    requires t.gos == s.gos[g := Go(run, None, false, Starting)] && t.driving == s.driving + {run}
    requires t.slots == s.slots + 1 && t.rows == s.rows && t.workers == s.workers
    ensures Books(t)
  {
    NewGoKeepsApart(s, t, g, run);
    NewGoKeepsDriven(s, t, g, run);
    hide Apart, Driven;
    assert t.gos.Keys == s.gos.Keys + {g};
  }

  lemma NewGoKeepsDriven(s: State, t: State, g: GoId, run: RunId)
    requires Driven(s) && g !in s.gos
    requires t.gos == s.gos[g := Go(run, None, false, Starting)] && t.driving == s.driving + {run}
    ensures Driven(t)
  {
    forall r <- t.driving ensures exists x :: x in t.gos && InPool(t.gos[x]) && t.gos[x].run == r {
      if r == run {
        assert t.gos[g].run == r;
      } else {
        var x :| x in s.gos && InPool(s.gos[x]) && s.gos[x].run == r;
        assert t.gos[x].run == r;
      }
    }
  }

  lemma NewGoKeepsApart(s: State, t: State, g: GoId, run: RunId)
    requires Apart(s) && Enlisted(s) && run !in s.driving
    requires t.gos == s.gos[g := Go(run, None, false, Starting)]
    ensures Apart(t)
  {
  }

  lemma RetireKeepsBooks(s: State, g: GoId)
    requires Books(s) && PoolEnabled(s, Retire(g))
    ensures Books(PoolStep(s, Retire(g)))
  {
    var t := PoolStep(s, Retire(g));
    assert t.gos.Keys == s.gos.Keys;
    DriversCovered(s, t);
  }

  lemma ReleaseKeepsBooks(s: State, g: GoId)
    requires Books(s) && PoolEnabled(s, ReleaseSlot(g))
    ensures Books(PoolStep(s, ReleaseSlot(g)))
  {
    var t := PoolStep(s, ReleaseSlot(g));
    assert t.gos.Keys == s.gos.Keys - {g};
    DriversCovered(s, t);
  }

  lemma MoveKeepsBooks(s: State, g: GoId, m: Move)
    requires Books(s) && g in s.gos && MoveEnabled(s, s.gos[g], m)
    ensures Books(MoveStep(s, g, m))
  {
    hide MovedRow, MovedBook;
    var t := MoveStep(s, g, m);
    StaysInPool(s, s.gos[g], m);
    assert t.gos.Keys == s.gos.Keys;
    DriversCovered(s, t);
  }

  lemma StaysInPool(s: State, go: Go, m: Move)
    requires MoveEnabled(s, go, m)
    ensures InPool(go) && InPool(MovedGo(s, go, m)) && MovedGo(s, go, m).run == go.run
    ensures !m.Claim? ==> MovedGo(s, go, m).claim == go.claim
  {
  }

  lemma BooksStep(s: State, e: Event)
    requires Books(s) && Enabled(s, e)
    ensures Books(Step(s, e))
  {
    hide PoolStep, MoveStep, TickStep, Books, WorldRow;
    match e
    case Pool(p) => PoolKeepsBooks(s, p);
    case Executor(g, m) => MoveKeepsBooks(s, g, m);
    case Renewer(k) =>
      TickLeavesGos(s, k);
      SamePoolSameBooks(s, Step(s, e));
    case World(run, w) => SamePoolSameBooks(s, Step(s, e));
  }

  lemma SamePoolSameBooks(s: State, t: State)
    requires Books(s) && t.gos == s.gos && t.slots == s.slots && t.driving == s.driving && t.workers == s.workers
    requires s.rows.Keys <= t.rows.Keys
    ensures Books(t)
  {
  }

  // ----- every step moves rows one way

  /** Tokens only rise, and no step but this owner's own claim makes a row run under it. */
  predicate RowMoves(me: Owner, before: Row, after: Row) {
    before.epoch <= after.epoch
    && (after == before || !(after.state.Running? && after.owner == me) || before.epoch < after.epoch)
  }

  ghost predicate RowsMove(s: State, t: State) {
    t.me == s.me && t.rows.Keys == s.rows.Keys && forall run <- s.rows :: RowMoves(s.me, s.rows[run], t.rows[run])
  }

  lemma RowsStep(s: State, e: Event)
    requires Enabled(s, e)
    ensures RowsMove(s, Step(s, e))
  {
    hide MovedGo, MovedBook;
    match e
    case Executor(g, m) => MovedRowMoves(s, s.gos[g], m);
    case World(run, w) => WorldRowMoves(s.me, s.rows[run], w);
    case _ =>
  }

  lemma MovedRowMoves(s: State, go: Go, m: Move)
    requires MoveEnabled(s, go, m)
    ensures RowMoves(s.me, s.rows[go.run], MovedRow(s, go, m))
  {
  }

  lemma WorldRowMoves(me: Owner, row: Row, w: WorldEvent)
    requires WorldEnabled(me, row, w)
    ensures RowMoves(me, row, WorldRow(row, w))
  {
  }

  /** Once a token is gone from its row, no step brings it back. */
  lemma GoneForGood(me: Owner, before: Row, after: Row, epoch: int)
    requires RowMoves(me, before, after) && Gone(before, LeaseRef(me, epoch))
    ensures Gone(after, LeaseRef(me, epoch))
  {
  }

  // ----- every step keeps the tokens in order

  lemma TokensStep(s: State, e: Event)
    requires Inv(s) && Enabled(s, e)
    ensures Tokens(Step(s, e))
  {
    hide Answers, Accounted, Books, PoolStep, MoveStep, TickStep, WorldRow;
    RowsStep(s, e);
    match e
    case Pool(p) => PoolLeavesTheBook(s, p);
    case Executor(g, m) =>
      assert Standing(s, s.gos[g]);
      MoveKeepsTokens(s, g, m);
    case Renewer(k) => TickKeepsTokens(s, k);
    case World(run, w) =>
  }

  lemma PoolLeavesTheBook(s: State, p: PoolEvent)
    requires PoolEnabled(s, p)
    ensures var t := PoolStep(s, p); (t.rows, t.held, t.handles, t.tick) == (s.rows, s.held, s.handles, s.tick)
    ensures var t := PoolStep(s, p); (t.lost, t.reported, t.me) == (s.lost, s.reported, s.me)
  {
  }

  lemma MoveKeepsTokens(s: State, g: GoId, m: Move)
    requires Tokens(s) && g in s.gos && MoveEnabled(s, s.gos[g], m) && Standing(s, s.gos[g])
    requires RowsMove(s, MoveStep(s, g, m))
    ensures Tokens(MoveStep(s, g, m))
  {
    hide MovedGo, Unconfirmed;
    if m.Hold? {
      HoldLeavesRows(s, s.gos[g]);
    }
  }

  lemma HoldLeavesRows(s: State, go: Go)
    requires MoveEnabled(s, go, Hold)
    ensures MovedRow(s, go, Hold) == s.rows[go.run]
  {
  }

  lemma TickKeepsTokens(s: State, k: TickEvent)
    requires Tokens(s) && TickEnabled(s, k)
    ensures Tokens(TickStep(s, k))
  {
  }

  lemma AnswersStep(s: State, e: Event)
    requires Tokens(s) && Answers(s) && Enabled(s, e)
    ensures Answers(Step(s, e))
  {
    hide PoolStep, MovedGo, MovedRow, MovedBook, WorldRow, TickStep;
    var t := Step(s, e);
    RowsStep(s, e);
    if e.Pool? {
      PoolLeavesTheBook(s, e.p);
    }
    if e.Renewer? {
      TickKeepsAnswers(s, e.k);
    } else {
      forall run | Unconfirmed(t.tick, run) && run in t.rows
        ensures Gone(t.rows[run], t.Ref(t.tick.snapshot[run].epoch))
      {
        GoneForGood(s.me, s.rows[run], t.rows[run], s.tick.snapshot[run].epoch);
      }
    }
  }

  lemma TickKeepsAnswers(s: State, k: TickEvent)
    requires Tokens(s) && Answers(s) && TickEnabled(s, k)
    ensures Answers(TickStep(s, k))
  {
  }

  // ----- every goroutine keeps its standing

  /** What a step may do to the entry of a run no moving goroutine works on: nothing, or drop it after
      telling its handle, once its token is gone. */
  predicate EntryKept(s: State, t: State, run: RunId) {
    if run in t.held then run in s.held && t.held[run] == s.held[run]
    else run in s.held && run in s.rows ==> s.held[run].id in t.lost && Gone(s.rows[run], s.Ref(s.held[run].epoch))
  }

  lemma BystanderStands(s: State, t: State, go: Go)
    requires Standing(s, go) && go.run in s.rows && go.run in t.rows && RowMoves(s.me, s.rows[go.run], t.rows[go.run])
    requires t.me == s.me && s.lost <= t.lost && s.reported <= t.reported
    requires InPool(go) ==> EntryKept(s, t, go.run)
    ensures Standing(t, go)
  {
  }

  lemma ExecutorStands(s: State, g: GoId, m: Move)
    requires Inv(s) && g in s.gos && MoveEnabled(s, s.gos[g], m)
    ensures var t := MoveStep(s, g, m); Standing(t, t.gos[g])
  {
    hide Accounted, Answers, Books;
    assert Standing(s, s.gos[g]);
  }

  lemma BooksGrow(s: State, e: Event)
    requires Enabled(s, e)
    ensures var t := Step(s, e); s.lost <= t.lost && s.reported <= t.reported
  {
    hide MovedGo, MovedRow, MovedBook;
  }

  lemma EntriesKept(s: State, e: Event, run: RunId)
    requires Inv(s) && Enabled(s, e) && run in s.rows
    requires e.Executor? ==> s.gos[e.g].run != run
    ensures EntryKept(s, Step(s, e), run)
  {
    hide Books, Standings, Accounted, Tokens, MovedGo, MovedRow, PoolStep, WorldRow;
    match e
    case Pool(p) => PoolLeavesTheBook(s, p);
    case _ =>
  }

  /** A step changes the goroutine that moves; otherwise it starts one, or takes one off the books. */
  predicate OtherGo(s: State, t: State, x: GoId) {
    x in t.gos &&
    ((x in s.gos && t.gos[x] == s.gos[x])
     || (x in s.gos && s.gos[x].pc.Leaving? && t.gos[x] == s.gos[x].(pc := Releasing))
     || (t.gos[x].claim == None && !t.gos[x].lostClaim && t.gos[x].pc == Starting))
  }

  lemma OtherGos(s: State, e: Event, x: GoId)
    requires Enabled(s, e) && x in Step(s, e).gos && !(e.Executor? && e.g == x)
    ensures OtherGo(s, Step(s, e), x)
  {
    hide MovedGo, MovedRow, MovedBook, WorldRow;
  }

  lemma OneBystander(s: State, e: Event, x: GoId)
    requires Inv(s) && Enabled(s, e) && x in Step(s, e).gos && !(e.Executor? && e.g == x)
    ensures Standing(Step(s, e), Step(s, e).gos[x])
  {
    hide Answers, Accounted, EntryKept, Step, Enabled, Tokens;
    var t := Step(s, e);
    OtherGos(s, e, x);
    BooksGrow(s, e);
    RowsStep(s, e);
    if x in s.gos {
      var go := s.gos[x];
      assert Standing(s, go);
      if go.run in s.rows {
        if InPool(go) {
          ApartFromTheMover(s, e, x);
          EntriesKept(s, e, go.run);
        }
        BystanderStands(s, t, go);
      }
    }
  }

  lemma ApartFromTheMover(s: State, e: Event, x: GoId)
    requires Books(s) && Enabled(s, e) && x in s.gos && InPool(s.gos[x]) && !(e.Executor? && e.g == x)
    ensures e.Executor? ==> s.gos[e.g].run != s.gos[x].run
  {
  }

  lemma StandingsStep(s: State, e: Event)
    requires Inv(s) && Enabled(s, e)
    ensures Standings(Step(s, e))
  {
    hide Inv, Standing, MoveStep, TickStep, PoolStep, WorldRow;
    var t := Step(s, e);
    forall x <- t.gos ensures Standing(t, t.gos[x]) {
      if e.Executor? && e.g == x {
        ExecutorStands(s, x, e.m);
      } else {
        OneBystander(s, e, x);
      }
    }
  }

  // ----- every step keeps everything accounted for

  /** A claim is with its goroutine in the pool. */
  predicate Claimant(s: State, x: GoId, run: RunId, epoch: int) {
    x in s.gos && InPool(s.gos[x]) && s.gos[x].run == run && s.gos[x].claim == Some(epoch)
  }

  lemma NewlyHeld(s: State, e: Event, run: RunId)
    requires Enabled(s, e) && run in s.rows && Step(s, e).rows.Keys == s.rows.Keys
    requires var row := Step(s, e).rows[run]; row.state.Running? && row.owner == s.me && row != s.rows[run]
    ensures e.Executor? && Claimant(Step(s, e), e.g, run, Step(s, e).rows[run].epoch)
  {
    hide MovedBook;
  }

  lemma ClaimantStays(s: State, e: Event, x: GoId, run: RunId, epoch: int)
    requires Inv(s) && Enabled(s, e) && Claimant(s, x, run, epoch)
    requires run in s.rows && Lease.Holds(s.rows[run], s.Ref(epoch))
    ensures Claimant(Step(s, e), x, run, epoch) || (run, epoch) in s.reported
  {
    hide Answers, Accounted, Books, Tokens, MovedRow, MovedBook, TickStep, WorldRow;
    assert Standing(s, s.gos[x]);
    if e.Executor? && e.g == x {
      StaysInPool(s, s.gos[x], e.m);
    } else if e.Renewer? {
      TickLeavesGos(s, e.k);
    }
  }

  lemma TickLeavesGos(s: State, k: TickEvent)
    requires TickEnabled(s, k)
    ensures var t := TickStep(s, k); (t.gos, t.driving, t.slots, t.workers) == (s.gos, s.driving, s.slots, s.workers)
    ensures TickStep(s, k).rows == s.rows
  {
  }

  lemma AccountedStep(s: State, e: Event)
    requires Inv(s) && Enabled(s, e)
    ensures Accounted(Step(s, e))
  {
    hide Answers, Books, Tokens, Standings, Step, Enabled, Claimant;
    var t := Step(s, e);
    RowsStep(s, e);
    BooksGrow(s, e);
    forall run <- t.rows | t.rows[run].state.Running? && t.rows[run].owner == t.me
      ensures (run, t.rows[run].epoch) in t.reported || exists g :: Claimant(t, g, run, t.rows[run].epoch)
    {
      if t.rows[run] != s.rows[run] {
        NewlyHeld(s, e, run);
      } else if (run, s.rows[run].epoch) !in s.reported {
        var x :| Claimant(s, x, run, s.rows[run].epoch);
        ClaimantStays(s, e, x, run, s.rows[run].epoch);
      }
    }
  }

  // ----- every run keeps the invariant

  lemma StepKeepsInv(s: State, e: Event)
    requires Inv(s) && Enabled(s, e)
    ensures Inv(Step(s, e))
  {
    hide Step, Enabled, Books, Tokens, Answers, Standings, Accounted;
    BooksStep(s, e);
    TokensStep(s, e);
    AnswersStep(s, e);
    StandingsStep(s, e);
    AccountedStep(s, e);
  }

  lemma {:induction false} RunsKeepInv(s: State, events: seq<Event>, t: State)
    requires Inv(s) && Reaches(s, events, t)
    ensures Inv(t)
  {
    hide Step, Enabled, Inv;
    if events != [] {
      var n := |events| - 1;
      var u :| Reaches(s, events[..n], u) && Enabled(u, events[n]) && t == Step(u, events[n]);
      RunsKeepInv(s, events[..n], u);
      StepKeepsInv(u, events[n]);
    }
  }

  // ----- what follows, for every run of the machine

  /** At most one goroutine of the pool drives a run, and slots never exceed the workers. */
  lemma OneDriverPerRun(s: State, events: seq<Event>, t: State, a: GoId, b: GoId)
    requires Init(s) && Reaches(s, events, t)
    ensures t.slots <= t.workers && |t.gos| == t.slots
    ensures a in t.gos && b in t.gos && InPool(t.gos[a]) && InPool(t.gos[b]) && t.gos[a].run == t.gos[b].run ==> a == b
  {
    hide Step, Enabled, Tokens, Answers, Standings, Accounted;
    InitHolds(s);
    RunsKeepInv(s, events, t);
  }

  /** A handback that lands releases a row held under this owner at the token the goroutine read; if the
      goroutine had claimed the run it is its own claim, no other goroutine drives the run, and a goroutine
      that lost its claim never gets here. */
  lemma HandbackIsOurs(s: State, events: seq<Event>, t: State, g: GoId)
    requires Init(s) && Reaches(s, events, t) && Enabled(t, Executor(g, Drain))
    ensures var go := t.gos[g];
            !go.lostClaim && go.pc.ref.owner == t.me
            && (go.claim.Some? ==> go.pc.ref.epoch == go.claim.value)
            && (forall x :: x in t.gos && InPool(t.gos[x]) && t.gos[x].run == go.run ==> x == g)
            && (Step(t, Executor(g, Drain)).rows != t.rows ==> Lease.Holds(t.rows[go.run], go.pc.ref))
  {
    hide Tokens, Answers, Accounted;
    InitHolds(s);
    RunsKeepInv(s, events, t);
    assert Standing(t, t.gos[g]);
    assert t.rows[t.gos[g].run := t.rows[t.gos[g].run]] == t.rows;
  }

  /** A goroutine that leaves without a handback error leaves nothing claimed behind: its row is not
      running under the token it claimed, and never will be again. */
  lemma LeavesNothingBehind(s: State, before: seq<Event>, t: State, g: GoId, after: seq<Event>, u: State)
    requires Init(s) && Reaches(s, before, t) && t.At(g, Leaving(false)) && t.gos[g].claim.Some?
    requires Reaches(t, after, u)
    ensures t.gos[g].run in u.rows && !Lease.Holds(u.rows[t.gos[g].run], t.Ref(t.gos[g].claim.value))
  {
    hide Step, Enabled, Tokens, Answers, Accounted;
    InitHolds(s);
    RunsKeepInv(s, before, t);
    assert Standing(t, t.gos[g]);
    StaysGone(t, after, u, t.gos[g].run, t.gos[g].claim.value);
  }

  lemma {:induction false} StaysGone(t: State, events: seq<Event>, u: State, run: RunId, epoch: int)
    requires run in t.rows && Gone(t.rows[run], t.Ref(epoch)) && Reaches(t, events, u)
    ensures run in u.rows && Gone(u.rows[run], t.Ref(epoch)) && u.me == t.me
  {
    hide Step, Enabled, Gone;
    if events != [] {
      var n := |events| - 1;
      var v :| Reaches(t, events[..n], v) && Enabled(v, events[n]) && u == Step(v, events[n]);
      StaysGone(t, events[..n], v, run, epoch);
      RowsStep(v, events[n]);
      GoneForGood(t.me, v.rows[run], u.rows[run], epoch);
    }
  }

  /** No orphans: whatever runs under this owner is in the hands of a goroutine that claimed it at this very
      token, or was reported as impossible to hand back. */
  lemma NothingRunsUnaccounted(s: State, events: seq<Event>, t: State, run: RunId)
    requires Init(s) && Reaches(s, events, t) && run in t.rows
    requires t.rows[run].state.Running? && t.rows[run].owner == t.me && (run, t.rows[run].epoch) !in t.reported
    ensures exists g :: Claimant(t, g, run, t.rows[run].epoch)
  {
    hide Step, Enabled, Books, Tokens, Answers, Standings;
    InitHolds(s);
    RunsKeepInv(s, events, t);
  }

  /** An entry leaves the keeper's book only once its token is gone: a renewal never hides an owed handback,
      and no late forget or drop removes a newer claim. */
  lemma BookOnlyLosesGoneTokens(s: State, events: seq<Event>, t: State, e: Event, run: RunId)
    requires Init(s) && Reaches(s, events, t) && Enabled(t, e) && run in t.held && run !in Step(t, e).held
    ensures run in t.rows && Gone(t.rows[run], t.Ref(t.held[run].epoch))
  {
    hide Accounted, Books, PoolStep, MoveStep, TickStep;
    InitHolds(s);
    RunsKeepInv(s, events, t);
    match e
    case Pool(p) => PoolLeavesTheBook(t, p);
    case Executor(g, m) =>
      assert Standing(t, t.gos[g]);
      MoveLosesGoneTokens(t, g, m, run);
    case Renewer(k) => TickLosesGoneTokens(t, k, run);
    case World(_, _) =>
  }

  lemma MoveLosesGoneTokens(t: State, g: GoId, m: Move, run: RunId)
    requires g in t.gos && MoveEnabled(t, t.gos[g], m) && Standing(t, t.gos[g])
    requires run in t.held && run !in MoveStep(t, g, m).held && run in t.rows
    ensures Gone(t.rows[run], t.Ref(t.held[run].epoch))
  {
  }

  lemma TickLosesGoneTokens(t: State, k: TickEvent, run: RunId)
    requires TickEnabled(t, k) && Tokens(t) && Answers(t)
    requires run in t.held && run !in TickStep(t, k).held && run in t.rows
    ensures Gone(t.rows[run], t.Ref(t.held[run].epoch))
  {
  }

  /** Self fencing: a goroutine still driving while the book no longer holds its handle has been told. */
  lemma LosersAreTold(s: State, events: seq<Event>, t: State, g: GoId)
    requires Init(s) && Reaches(s, events, t) && g in t.gos && t.gos[g].pc.Driving?
    requires t.gos[g].run !in t.held || t.held[t.gos[g].run] != t.gos[g].pc.handle
    ensures t.gos[g].pc.handle.id in t.lost
  {
    hide Step, Enabled, Tokens, Answers, Accounted;
    InitHolds(s);
    RunsKeepInv(s, events, t);
    assert Standing(t, t.gos[g]);
  }

  // ----- the machine can run

  lemma NoStep(s: State)
    ensures Reaches(s, [], s)
  {
  }

  lemma OneMoreStep(s: State, events: seq<Event>, t: State, e: Event)
    requires Reaches(s, events, t) && Enabled(t, e)
    ensures Reaches(s, events + [e], Step(t, e))
  {
    hide Step, Enabled;
    assert (events + [e])[..|events|] == events;
  }

  /** The pool at work on one run: its only goroutine, its row, and its entry in the keeper's book. */
  predicate Scene(t: State, g: GoId, go: Go, row: Row, held: bool) {
    t.gos == map[g := go] && t.slots == 1 && t.driving == {go.run} && go.run in t.rows && t.rows[go.run] == row
    && (held <==> go.run in t.held)
    && (held && go.claim.Some? ==> t.held[go.run].epoch == go.claim.value)
  }

  lemma SubmitScene(s: State, g: GoId, run: RunId)
    requires Init(s) && run in s.rows && s.workers > 0
    ensures Enabled(s, Pool(Submit(g, run)))
    ensures var u := Step(s, Pool(Submit(g, run)));
            u.me == s.me && u.held == map[] && u.tick.Idle?
            && Scene(u, g, Go(run, None, false, Starting), s.rows[run], false)
  {
  }

  /** What a move of the only goroutine makes of the scene. */
  lemma MoveScene(t: State, g: GoId, go: Go, row: Row, held: bool, m: Move)
    requires Scene(t, g, go, row, held) && MoveEnabled(t, go, m)
    ensures Enabled(t, Executor(g, m))
    ensures var u := Step(t, Executor(g, m));
            u.me == t.me && u.gos == map[g := MovedGo(t, go, m)] && u.slots == 1 && u.driving == t.driving
            && u.rows == t.rows[go.run := MovedRow(t, go, m)] && u.held == MovedBook(t, go, m) && u.tick == t.tick
  {
    hide MovedGo, MovedRow, MovedBook;
  }

  lemma ARunIsClaimed(s: State, g: GoId, run: RunId) returns (events: seq<Event>, t: State)
    requires Init(s) && run in s.rows && s.rows[run].state.Queued? && s.workers > 0
    ensures Reaches(s, events, t) && t.me == s.me && t.held == map[] && t.tick.Idle?
    ensures var epoch := s.rows[run].epoch + 1;
            Scene(t, g, Go(run, Some(epoch), false, Claimed), Row(Running, s.me, epoch), false)
  {
    hide Reaches, Init, Enabled, Step;
    NoStep(s);
    SubmitScene(s, g, run);
    events, t := TakeStep(s, [], s, Pool(Submit(g, run)));
    MoveScene(t, g, Go(run, None, false, Starting), s.rows[run], false, Claim);
    events, t := TakeStep(s, events, t, Executor(g, Claim));
  }

  lemma AClaimIsStopped(s: State, before: seq<Event>, u: State, g: GoId, run: RunId, epoch: int)
    returns (events: seq<Event>, t: State)
    requires Reaches(s, before, u) && u.me == s.me
    requires Scene(u, g, Go(run, Some(epoch), false, Claimed), Row(Running, s.me, epoch), false)
    ensures Reaches(s, events, t) && t.me == s.me
    ensures Scene(t, g, Go(run, Some(epoch), false, HandBack(0)), Row(Running, s.me, epoch), true)
  {
    hide Reaches, Enabled, Step;
    var row := Row(Running, s.me, epoch);
    MoveScene(u, g, Go(run, Some(epoch), false, Claimed), row, false, Hold);
    events, t := TakeStep(s, before, u, Executor(g, Hold));
    MoveScene(t, g, Go(run, Some(epoch), false, Driving(Handle(u.handles, epoch))), row, true, StopDriving);
    events, t := TakeStep(s, events, t, Executor(g, StopDriving));
  }

  lemma AStoppedRunIsDrained(s: State, before: seq<Event>, u: State, g: GoId, run: RunId, epoch: int)
    returns (events: seq<Event>, t: State)
    requires Reaches(s, before, u) && u.me == s.me
    requires Scene(u, g, Go(run, Some(epoch), false, HandBack(0)), Row(Running, s.me, epoch), true)
    ensures Reaches(s, events, t)
    ensures Scene(t, g, Go(run, Some(epoch), false, Leaving(false)), Row(Queued, "", epoch + 1), false)
  {
    hide Reaches, Enabled, Step;
    var row, ref := Row(Running, s.me, epoch), s.Ref(epoch);
    MoveScene(u, g, Go(run, Some(epoch), false, HandBack(0)), row, true, ReadLease);
    events, t := TakeStep(s, before, u, Executor(g, ReadLease));
    MoveScene(t, g, Go(run, Some(epoch), false, Draining(0, ref)), row, true, Drain);
    events, t := TakeStep(s, events, t, Executor(g, Drain));
    MoveScene(t, g, Go(run, Some(epoch), false, Forgetting(ref)), Row(Queued, "", epoch + 1), true, ForgetLease);
    events, t := TakeStep(s, events, t, Executor(g, ForgetLease));
  }

  /** From any start with a queued run and a free slot, a run of the machine claims it, is stopped, hands it
      back and leaves: the row is queued again under a later token and the pool is empty. */
  lemma AHandbackHappens(s: State, g: GoId, run: RunId) returns (events: seq<Event>, t: State)
    requires Init(s) && run in s.rows && s.rows[run].state.Queued? && s.workers > 0
    ensures Reaches(s, events, t) && t.slots == 0 && t.gos == map[] && t.driving == {} && run !in t.held
    ensures run in t.rows && t.rows[run] == Row(Queued, "", s.rows[run].epoch + 2)
  {
    hide Init, Reaches;
    events, t := ARunIsClaimed(s, g, run);
    events, t := AClaimIsStopped(s, events, t, g, run, s.rows[run].epoch + 1);
    events, t := AStoppedRunIsDrained(s, events, t, g, run, s.rows[run].epoch + 1);
    events, t := TakeStep(s, events, t, Pool(Retire(g)));
    events, t := TakeStep(s, events, t, Pool(ReleaseSlot(g)));
  }

  lemma TakeStep(s: State, events: seq<Event>, t: State, e: Event) returns (more: seq<Event>, u: State)
    requires Reaches(s, events, t) && Enabled(t, e)
    ensures Reaches(s, more, u) && u == Step(t, e)
  {
    OneMoreStep(s, events, t, e);
    return events + [e], Step(t, e);
  }
}
