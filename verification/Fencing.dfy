/** What the lease protocol promises about tokens, told leases and handback tries, in any run of the machine of
    Protocol: no token is ever held twice, no handle is told wrongly, and no handback gives up early. */
module Fencing {
  import opened Lease
  import opened Options
  import opened Protocol

  // ----- the life of a row

  /** A claim takes the row from the queue to its owner and raises the token. */
  predicate IsClaimed(before: Row, after: Row) {
    before.state == Queued && after.state == Running && after.epoch == before.epoch + 1
  }

  /** A verdict ends the row under the token it ran at; so does a cancellation in the queue. */
  predicate IsEnded(before: Row, after: Row) {
    before.state != Ended && after.state == Ended && after.epoch == before.epoch
  }

  /** A handback or a reaper takes it away from its owner, and a requeue brings an ended row back: each raises
      the token. */
  predicate IsTaken(before: Row, after: Row) {
    before.state != Queued && after.state != Running && after.owner == "" && after.epoch == before.epoch + 1
    && (before.state == Ended ==> after.state == Queued)
  }

  lemma RowLifeCycle(s: State, e: Event, run: RunId)
    requires Enabled(s, e) && run in s.rows
    ensures run in Step(s, e).rows
    ensures var before, after := s.rows[run], Step(s, e).rows[run];
            after == before || IsClaimed(before, after) || IsEnded(before, after) || IsTaken(before, after)
  {
    hide MovedGo, MovedBook;
  }

  /** What each fenced write of a goroutine makes of its row. */
  lemma WritesAreFenced(s: State, g: GoId, m: Move)
    requires Enabled(s, Executor(g, m))
    ensures var go := s.gos[g];
            var before, after := s.rows[go.run], Step(s, Executor(g, m)).rows[go.run];
            match m
            case Claim => before.state == Queued && after == Row(Running, s.me, before.epoch + 1)
            case Finish => before == Row(Running, s.me, go.claim.value) && after == Row(Ended, "", before.epoch)
            case Drain =>
              var held := before == Row(Running, go.pc.ref.owner, go.pc.ref.epoch);
              after == if held then Row(Queued, "", before.epoch + 1) else before
            case _ => after == before || m == DrainFails(true)
  {
    hide MovedGo, MovedBook;
  }

  /** The row is as it was, or has ended under the same token, or carries a later token. */
  predicate Later(before: Row, after: Row) {
    before.epoch < after.epoch || after == before || (after.epoch == before.epoch && after.state == Ended)
  }

  lemma {:induction false} RowsGrowOlder(s: State, events: seq<Event>, t: State, run: RunId)
    requires Reaches(s, events, t) && run in s.rows
    ensures run in t.rows && Later(s.rows[run], t.rows[run])
  {
    hide Step, Enabled;
    if events != [] {
      var n := |events| - 1;
      var u :| Reaches(s, events[..n], u) && Enabled(u, events[n]) && t == Step(u, events[n]);
      RowsGrowOlder(s, events[..n], u, run);
      RowLifeCycle(u, events[n], run);
    }
  }

  /** A token names one holder for good: whoever runs a row later under a token no newer is the one who ran it
      then, without a break. */
  lemma TokenNamesOneHolder(s: State, before: seq<Event>, t: State, after: seq<Event>, u: State, run: RunId)
    requires Reaches(s, before, t) && Reaches(t, after, u) && run in s.rows
    requires run in u.rows && u.rows[run].state.Running? && u.rows[run].epoch <= s.rows[run].epoch
    ensures run in t.rows && s.rows[run] == t.rows[run] == u.rows[run]
  {
    RowsGrowOlder(s, before, t, run);
    RowsGrowOlder(t, after, u, run);
  }

  // ----- handback tries

  /** How often the store has failed the handback of the goroutine now in the pool under this name. */
  function Tries(events: seq<Event>, g: GoId): nat {
    if events == [] then 0
    else
      var n := |events| - 1;
      match events[n]
      case Pool(Submit(h, _)) => if h == g then 0 else Tries(events[..n], g)
      case Executor(h, DrainFails(_)) => if h == g then Tries(events[..n], g) + 1 else Tries(events[..n], g)
      case _ => Tries(events[..n], g)
  }

  predicate Tried(pc: Pc, tries: nat) {
    match pc
    case HandBack(attempt) => attempt == tries <= 3
    case Draining(attempt, _) => attempt == tries < 3
    case Forgetting(_) => tries < 3
    case Leaving(failed) => tries <= 3 && (failed <==> tries == 3)
    case Releasing => tries <= 3
    case _ => tries == 0
  }

  lemma TriedStep(s: State, e: Event, g: GoId, tries: nat, after: nat)
    requires Enabled(s, e) && g in Step(s, e).gos
    requires g in s.gos ==> Tried(s.gos[g].pc, tries)
    requires after == (if e.Pool? && e.p.Submit? && e.p.g == g then 0
                       else if e.Executor? && e.g == g && e.m.DrainFails? then tries + 1 else tries)
    ensures Tried(Step(s, e).gos[g].pc, after)
  {
    hide MovedRow, MovedBook, WorldRow;
  }

  lemma {:induction false} TriesAreCounted(s: State, events: seq<Event>, t: State, g: GoId)
    requires Init(s) && Reaches(s, events, t) && g in t.gos
    ensures Tried(t.gos[g].pc, Tries(events, g))
  {
    hide Step, Enabled, Tried;
    if events != [] {
      var n := |events| - 1;
      var u :| Reaches(s, events[..n], u) && Enabled(u, events[n]) && t == Step(u, events[n]);
      if g in u.gos {
        TriesAreCounted(s, events[..n], u, g);
      }
      TriedStep(u, events[n], g, Tries(events[..n], g), Tries(events, g));
    }
  }

  /** A goroutine leaves with a handback error exactly when the store failed it three times, and no goroutine
      asks a fourth time. */
  lemma GivesUpAfterThreeTries(s: State, events: seq<Event>, t: State, g: GoId)
    requires Init(s) && Reaches(s, events, t) && g in t.gos
    ensures Tries(events, g) <= 3
    ensures t.gos[g].pc.Leaving? ==> (t.gos[g].pc.failed <==> Tries(events, g) == 3)
    ensures t.gos[g].pc.Draining? ==> Tries(events, g) < 3
  {
    TriesAreCounted(s, events, t, g);
  }

  /** A goroutine leaves without an error only when it lost its claim, found no lease in the book, or the store
      answered; what it forgets then is only the token it asked with. */
  lemma WhoLeavesQuietly(s: State, e: Event, g: GoId)
    requires Enabled(s, e) && g in s.gos && !s.gos[g].pc.Leaving? && Step(s, e).At(g, Leaving(false))
    ensures var go, t := s.gos[g], Step(s, e);
            (e == Executor(g, LoseClaim) && t.gos[g].lostClaim)
            || (e == Executor(g, ReadLease) && go.run !in s.held)
            || (e == Executor(g, ForgetLease) && go.pc.Forgetting?
                && (go.run in t.held ==> t.held[go.run].epoch != go.pc.ref.epoch))
  {
    hide MovedRow, WorldRow;
  }

  /** Only such a goroutine reports its claim, when it leaves. */
  lemma OnlyTheDefeatedReport(s: State, e: Event)
    requires Enabled(s, e) && Step(s, e).reported != s.reported
    ensures e.Executor? && e.g in s.gos && s.gos[e.g].claim.Some? && Step(s, e).At(e.g, Leaving(true))
    ensures Step(s, e).reported == s.reported + {(s.gos[e.g].run, s.gos[e.g].claim.value)}
  {
    hide MovedRow, MovedBook, WorldRow;
  }

  // ----- who is told that a lease is lost

  /** The store's answer leaves exactly those entries unconfirmed whose token does not hold its row. */
  lemma AnswerIsTheStore(s: State, run: RunId)
    requires Enabled(s, Renewer(Answer)) && run in s.tick.snapshot
    ensures Unconfirmed(Step(s, Renewer(Answer)).tick, run)
       <==> !(run in s.rows && s.rows[run] == Row(Running, s.me, s.tick.snapshot[run].epoch))
  {
  }

  /** A handle's id belongs to one run and one claim. */
  ghost predicate OwnIds(s: State) {
    (forall id <- s.lost :: id < s.handles) && forall g <- s.gos :: s.gos[g].pc.Driving? ==> OwnId(s, s.gos[g])
  }

  ghost predicate OwnId(s: State, go: Go)
    requires go.pc.Driving?
  {
    go.pc.handle.id < s.handles
    && (forall run <- s.held :: s.held[run].id == go.pc.handle.id ==> run == go.run && s.held[run] == go.pc.handle)
    && (!s.tick.Idle? ==> forall run <- s.tick.snapshot ::
          s.tick.snapshot[run].id == go.pc.handle.id ==> run == go.run && s.tick.snapshot[run] == go.pc.handle)
  }

  /** Whoever has been told no longer holds the row. */
  ghost predicate ToldRightly(s: State) {
    forall g <- s.gos :: s.gos[g].pc.Driving? && s.gos[g].pc.handle.id in s.lost && s.gos[g].run in s.rows ==>
      Gone(s.rows[s.gos[g].run], s.Ref(s.gos[g].pc.handle.epoch))
  }

  ghost predicate Fenced(s: State) {
    Inv(s) && OwnIds(s) && ToldRightly(s)
  }

  lemma StillDriving(s: State, e: Event, x: GoId)
    requires Enabled(s, e) && x in Step(s, e).gos && Step(s, e).gos[x].pc.Driving?
    ensures x in s.gos && Step(s, e).gos[x].run == s.gos[x].run
    ensures var go := Step(s, e).gos[x];
            (s.gos[x].pc.Driving? && go == s.gos[x])
            || (e == Executor(x, Hold) && go.pc.handle.id == s.handles && go.run in Step(s, e).held
                && Step(s, e).held[go.run] == go.pc.handle)
  {
    hide MovedRow, WorldRow;
  }

  /** A new handle has the next id; what else is in the book or the snapshot was there before. */
  lemma IdsStep(s: State, e: Event)
    requires Enabled(s, e)
    ensures var t := Step(s, e);
            s.handles <= t.handles && s.lost <= t.lost && t.me == s.me
            && (forall run <- t.held ::
                  (run in s.held && t.held[run] == s.held[run])
                  || (e.Executor? && e.m == Hold && run == s.gos[e.g].run && t.held[run].id == s.handles < t.handles))
            && (!t.tick.Idle? ==>
                  (!s.tick.Idle? && t.tick.snapshot == s.tick.snapshot) || t.tick.snapshot == t.held == s.held)
  {
    hide MovedGo, MovedRow, WorldRow, PoolStep;
    if e.Pool? {
      PoolLeavesTheBook(s, e.p);
    }
  }

  lemma LostStep(s: State, e: Event)
    requires Enabled(s, e) && Tokens(s)
    ensures forall id <- Step(s, e).lost ::
              id in s.lost
              || (e.Renewer? && e.k.SignalLost? && Unconfirmed(s.tick, e.k.run) && id == s.tick.snapshot[e.k.run].id)
  {
    hide MovedGo, MovedRow, MovedBook, WorldRow, PoolStep;
    if e.Pool? {
      PoolLeavesTheBook(s, e.p);
    }
  }

  lemma OwnIdStep(s: State, e: Event, x: GoId)
    requires Enabled(s, e) && Tokens(s) && OwnIds(s) && x in Step(s, e).gos && Step(s, e).gos[x].pc.Driving?
    ensures OwnId(Step(s, e), Step(s, e).gos[x])
  {
    hide Step, Enabled;
    StillDriving(s, e, x);
    IdsStep(s, e);
    var go := s.gos[x];
    assert go.pc.Driving? ==> OwnId(s, go);
  }

  lemma ToldStep(s: State, e: Event, t: State, x: GoId, go: Go)
    requires Fenced(s) && Enabled(s, e) && t == Step(s, e) && x in t.gos && t.gos[x] == go
    requires go.pc.Driving? && go.pc.handle.id in t.lost && go.run in s.rows
    ensures go.run in t.rows && Gone(t.rows[go.run], s.Ref(go.pc.handle.epoch))
  {
    hide Step, Enabled, Inv, Gone, Unconfirmed;
    StillDriving(s, e, x);
    InvParts(s);
    LostStep(s, e);
    RowsStep(s, e);
    assert s.gos[x].pc.Driving? ==> OwnId(s, s.gos[x]);
    HoldIsNoLoss(s, e, x);
    AnswersGone(s, go.run);
    assert s.gos[x] == go;
    if go.pc.handle.id !in s.lost {
      assert Unconfirmed(s.tick, e.k.run);
      UnconfirmedIsSnapped(s);
      assert e.k.run == go.run;
    }
    assert Gone(s.rows[go.run], s.Ref(go.pc.handle.epoch));
    GoneForGood(s.me, s.rows[go.run], t.rows[go.run], go.pc.handle.epoch);
  }

  lemma HoldIsNoLoss(s: State, e: Event, x: GoId)
    requires Enabled(s, e) && OwnIds(s)
    ensures e == Executor(x, Hold) ==> s.handles !in Step(s, e).lost
  {
    hide MovedGo, MovedRow, MovedBook;
  }

  lemma AnswersGone(s: State, run: RunId)
    requires Answers(s) && run in s.rows
    ensures Unconfirmed(s.tick, run) ==>
              s.tick.Answered? && run in s.tick.snapshot
              && Gone(s.rows[run], s.Ref(s.tick.snapshot[run].epoch))
  {
  }

  lemma FencedStep(s: State, e: Event)
    requires Fenced(s) && Enabled(s, e)
    ensures Fenced(Step(s, e))
  {
    hide Step, Enabled, Inv, OwnId, Unconfirmed;
    var t := Step(s, e);
    StepKeepsInv(s, e);
    InvParts(s);
    IdsStep(s, e);
    LostStep(s, e);
    RowsStep(s, e);
    forall x <- t.gos | t.gos[x].pc.Driving? ensures OwnId(t, t.gos[x]) {
      OwnIdStep(s, e, x);
    }
    forall x <- t.gos | t.gos[x].pc.Driving? && t.gos[x].pc.handle.id in t.lost && t.gos[x].run in t.rows
      ensures Gone(t.rows[t.gos[x].run], t.Ref(t.gos[x].pc.handle.epoch))
    {
      StillDriving(s, e, x);
      ToldStep(s, e, t, x, t.gos[x]);
    }
    UnconfirmedIsSnapped(s);
  }

  lemma UnconfirmedIsSnapped(s: State)
    requires Tokens(s)
    ensures forall run :: Unconfirmed(s.tick, run) ==>
              s.tick.Answered? && run in s.tick.snapshot && s.tick.snapshot[run].id < s.handles
  {
  }

  lemma InvParts(s: State)
    requires Inv(s)
    ensures Tokens(s) && Answers(s)
  {
  }

  lemma FencedAtStart(s: State)
    requires Init(s)
    ensures Fenced(s)
  {
    InitHolds(s);
  }

  lemma {:induction false} RunsKeepFenced(s: State, events: seq<Event>, t: State)
    requires Fenced(s) && Reaches(s, events, t)
    ensures Fenced(t)
  {
    hide Step, Enabled, Fenced;
    if events != [] {
      var n := |events| - 1;
      var u :| Reaches(s, events[..n], u) && Enabled(u, events[n]) && t == Step(u, events[n]);
      RunsKeepFenced(s, events[..n], u);
      FencedStep(u, events[n]);
    }
  }

  /** No false fencing: a goroutine told that its lease is lost no longer holds its row, then and ever after. */
  lemma OnlyLosersAreTold(s: State, before: seq<Event>, t: State, g: GoId, after: seq<Event>, u: State)
    requires Init(s) && Reaches(s, before, t) && g in t.gos && t.gos[g].pc.Driving?
    requires t.gos[g].pc.handle.id in t.lost && Reaches(t, after, u)
    ensures t.gos[g].claim == Some(t.gos[g].pc.handle.epoch) && t.gos[g].run in u.rows
    ensures u.rows[t.gos[g].run] != Row(Running, t.me, t.gos[g].pc.handle.epoch)
  {
    hide Step, Enabled, Reaches, Books, Tokens, Answers, Accounted, OwnIds;
    FencedAtStart(s);
    RunsKeepFenced(s, before, t);
    assert Standing(t, t.gos[g]);
    DriversHaveRows(t, g);
    StaysGone(t, after, u, t.gos[g].run, t.gos[g].pc.handle.epoch);
  }

  lemma DriversHaveRows(t: State, g: GoId)
    requires Inv(t) && g in t.gos && InPool(t.gos[g])
    ensures t.gos[g].run in t.rows
  {
  }

  // ----- the machine can run

  /** From any start with a queued run and a free slot: the run is claimed and ends under the token of the claim,
      the handback is refused because nothing is owed any more, and the pool empties. */
  lemma AVerdictHappens(s: State, g: GoId, run: RunId) returns (events: seq<Event>, t: State)
    requires Init(s) && run in s.rows && s.rows[run].state.Queued? && s.workers > 0
    ensures Reaches(s, events, t) && t.slots == 0 && t.gos == map[] && t.driving == {} && run !in t.held
    ensures run in t.rows && t.rows[run] == Row(Ended, "", s.rows[run].epoch + 1)
  {
    hide Init, Reaches, Enabled, Step;
    var epoch := s.rows[run].epoch + 1;
    var row, ref, over := Row(Running, s.me, epoch), s.Ref(epoch), Row(Ended, "", epoch);
    events, t := ARunIsClaimed(s, g, run);
    MoveScene(t, g, Go(run, Some(epoch), false, Claimed), row, false, Hold);
    var handle := Handle(t.handles, epoch);
    events, t := TakeStep(s, events, t, Executor(g, Hold));
    MoveScene(t, g, Go(run, Some(epoch), false, Driving(handle)), row, true, Finish);
    events, t := TakeStep(s, events, t, Executor(g, Finish));
    MoveScene(t, g, Go(run, Some(epoch), false, HandBack(0)), over, true, ReadLease);
    events, t := TakeStep(s, events, t, Executor(g, ReadLease));
    MoveScene(t, g, Go(run, Some(epoch), false, Draining(0, ref)), over, true, Drain);
    events, t := TakeStep(s, events, t, Executor(g, Drain));
    MoveScene(t, g, Go(run, Some(epoch), false, Forgetting(ref)), over, true, ForgetLease);
    events, t := TakeStep(s, events, t, Executor(g, ForgetLease));
    events, t := APoolEmpties(s, events, t, g, Go(run, Some(epoch), false, Leaving(false)), over);
  }

  lemma APoolEmpties(s: State, before: seq<Event>, u: State, g: GoId, go: Go, row: Row)
    returns (events: seq<Event>, t: State)
    requires Reaches(s, before, u) && Scene(u, g, go, row, false) && go.pc.Leaving?
    ensures Reaches(s, events, t) && t.slots == 0 && t.gos == map[] && t.driving == {} && go.run !in t.held
    ensures go.run in t.rows && t.rows[go.run] == row
  {
    hide Reaches;
    events, t := TakeStep(s, before, u, Pool(Retire(g)));
    events, t := TakeStep(s, events, t, Pool(ReleaseSlot(g)));
  }

  /** From the same start: the run is claimed and reaped, the next renewal finds the lease gone, and its executor
      is told while it still drives, with the entry off the book. */
  lemma ALossIsTold(s: State, g: GoId, run: RunId) returns (events: seq<Event>, t: State)
    requires Init(s) && run in s.rows && s.rows[run].state.Queued? && s.workers > 0
    ensures Reaches(s, events, t) && g in t.gos && t.gos[g].run == run && t.gos[g].pc.Driving?
    ensures t.gos[g].pc.handle.id in t.lost && run !in t.held && t.tick == Idle
    ensures run in t.rows && t.rows[run] == Row(Queued, "", s.rows[run].epoch + 2)
  {
    hide Init, Reaches, Enabled, Step;
    var epoch := s.rows[run].epoch + 1;
    events, t := ARunIsClaimed(s, g, run);
    MoveScene(t, g, Go(run, Some(epoch), false, Claimed), Row(Running, s.me, epoch), false, Hold);
    var handle := Handle(t.handles, epoch);
    events, t := TakeStep(s, events, t, Executor(g, Hold));
    events, t := ALossIsNoticed(s, events, t, g, run, handle);
  }

  lemma ALossIsNoticed(s: State, before: seq<Event>, u: State, g: GoId, run: RunId, handle: Handle)
    returns (events: seq<Event>, t: State)
    requires Reaches(s, before, u) && u.At(g, Driving(handle)) && u.gos[g].run == run
    requires run in u.rows && u.rows[run] == Row(Running, u.me, handle.epoch)
    requires u.held == map[run := handle] && u.tick.Idle?
    ensures Reaches(s, events, t) && t.At(g, Driving(handle)) && t.gos[g].run == run
    ensures handle.id in t.lost && run !in t.held && t.tick == Idle
    ensures run in t.rows && t.rows[run] == Row(Queued, "", handle.epoch + 1)
  {
    hide Reaches;
    events, t := TakeStep(s, before, u, World(run, Reap(true)));
    events, t := TakeStep(s, events, t, Renewer(Snapshot));
    events, t := TakeStep(s, events, t, Renewer(Answer));
    events, t := TakeStep(s, events, t, Renewer(SignalLost(run)));
    events, t := TakeStep(s, events, t, Renewer(DropEntry(run)));
    assert t.tick.todo == {};
    events, t := TakeStep(s, events, t, Renewer(TickDone));
  }
}
