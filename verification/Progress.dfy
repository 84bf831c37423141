/** The machine of Protocol never locks up: every goroutine can always move, no goroutine moves for ever, and the
    other processes may do to a row whatever the store lets them. */
module Progress {
  import opened Lease
  import opened Options
  import opened Protocol
  import opened Fencing

  // ----- nobody is stuck

  /** The goroutine's own events: its moves, and the two halves of its exit. */
  predicate IsStepOf(e: Event, g: GoId) {
    match e
    case Executor(h, _) => h == g
    case Pool(Retire(h)) => h == g
    case Pool(ReleaseSlot(h)) => h == g
    case _ => false
  }

  /** In any reachable state every goroutine has a step it can take, whatever the store says. */
  lemma NobodyIsStuck(s: State, events: seq<Event>, t: State, g: GoId) returns (e: Event)
    requires Init(s) && Reaches(s, events, t) && g in t.gos
    ensures Enabled(t, e) && IsStepOf(e, g)
  {
    hide Tokens, Answers, Accounted, Reaches, Init;
    InitHolds(s);
    RunsKeepInv(s, events, t);
    var go := t.gos[g];
    assert Standing(t, go);
    e := match go.pc
         case Starting => Executor(g, LoseClaim)
         case Claimed => Executor(g, Hold)
         case Driving(_) => Executor(g, StopDriving)
         case HandBack(_) => Executor(g, ReadLease)
         case Draining(_, _) => Executor(g, Drain)
         case Forgetting(_) => Executor(g, ForgetLease)
         case Leaving(_) => Pool(Retire(g))
         case Releasing => Pool(ReleaseSlot(g));
  }

  /** The renewal goroutine can move in any state at all, and a store that fails never stops it. */
  lemma RenewalIsNeverStuck(s: State) returns (k: TickEvent)
    ensures Enabled(s, Renewer(k))
    ensures s.tick.Snapped? ==> Enabled(s, Renewer(AnswerFails)) && Step(s, Renewer(AnswerFails)) == s.(tick := Idle)
  {
    match s.tick
    case Idle => k := Snapshot;
    case Snapped(_) => k := Answer;
    case Answered(_, _, todo) =>
      if todo == {} {
        k := TickDone;
      } else {
        var run :| run in todo;
        k := if Unconfirmed(s.tick, run) then TickEvent.SignalLost(run) else Confirm(run);
      }
  }

  // ----- nobody moves for ever

  /** How many steps of its own the goroutine now in the pool under this name has taken. */
  function OwnSteps(events: seq<Event>, g: GoId): nat {
    if events == [] then 0
    else
      var n := |events| - 1;
      if events[n].Pool? && events[n].p.Submit? && events[n].p.g == g then 0
      else OwnSteps(events[..n], g) + (if IsStepOf(events[n], g) then 1 else 0)
  }

  /** How many more it can take at most. */
  function StepsLeft(pc: Pc): nat {
    match pc
    case Starting => 13
    case Claimed => 12
    case Driving(_) => 11
    case HandBack(attempt) => if attempt <= 3 then 10 - 2 * attempt else 4
    case Draining(attempt, _) => if attempt <= 3 then 9 - 2 * attempt else 3
    case Forgetting(_) => 3
    case Leaving(_) => 2
    case Releasing => 1
  }

  lemma StepsRunOut(s: State, e: Event, g: GoId, tries: nat)
    requires Enabled(s, e) && g in s.gos && g in Step(s, e).gos && Tried(s.gos[g].pc, tries)
    ensures StepsLeft(Step(s, e).gos[g].pc) + (if IsStepOf(e, g) then 1 else 0) <= StepsLeft(s.gos[g].pc)
  {
    hide MovedRow, MovedBook, WorldRow;
  }

  lemma {:induction false} StepsAreCounted(s: State, events: seq<Event>, t: State, g: GoId)
    requires Init(s) && Reaches(s, events, t) && g in t.gos
    ensures OwnSteps(events, g) + StepsLeft(t.gos[g].pc) <= 13
  {
    hide Step, Enabled, Tried, StepsLeft;
    if events != [] {
      var n := |events| - 1;
      var u :| Reaches(s, events[..n], u) && Enabled(u, events[n]) && t == Step(u, events[n]);
      if g in u.gos {
        StepsAreCounted(s, events[..n], u, g);
        TriesAreCounted(s, events[..n], u, g);
        StepsRunOut(u, events[n], g, Tries(events[..n], g));
      } else {
        NewGoStarts(u, events[n], g);
      }
    }
  }

  lemma NewGoStarts(s: State, e: Event, g: GoId)
    requires Enabled(s, e) && g !in s.gos && g in Step(s, e).gos
    ensures e.Pool? && e.p.Submit? && e.p.g == g && StepsLeft(Step(s, e).gos[g].pc) == 13
  {
  }

  /** No goroutine takes more than thirteen steps of its own: the thirteenth gives its slot back. */
  lemma EveryoneLeaves(s: State, events: seq<Event>, t: State, g: GoId)
    requires Init(s) && Reaches(s, events, t) && g in t.gos
    ensures OwnSteps(events, g) <= 12
    ensures forall e :: Enabled(t, e) && IsStepOf(e, g) && OwnSteps(events, g) == 12 ==>
              e == Pool(ReleaseSlot(g)) && g !in Step(t, e).gos
  {
    hide Reaches, MovedGo, MovedRow, MovedBook;
    StepsAreCounted(s, events, t, g);
  }

  // ----- what the others may do

  /** Another process claims, ends or hands back what is its own; anyone reaps, requeues and cancels. */
  predicate OthersMay(me: Owner, before: Row, after: Row) {
    match before.state
    case Queued =>
      (after.state == Running && after.owner != me && after.epoch == before.epoch + 1)
      || after == Row(Ended, before.owner, before.epoch)
    case Running =>
      after == Row(Queued, "", before.epoch + 1) || after == Row(Ended, "", before.epoch + 1)
      || (before.owner != me && after == Row(Ended, "", before.epoch))
    case Ended => after == Row(Queued, "", before.epoch + 1)
  }

  /** The other processes can make exactly these changes. */
  lemma OthersMayIff(me: Owner, before: Row, after: Row)
    ensures OthersMay(me, before, after) <==> exists w :: WorldEnabled(me, before, w) && WorldRow(before, w) == after
  {
    if OthersMay(me, before, after) {
      var w := if before.state == Queued then (if after.state == Ended then CancelQueued else OtherClaims(after.owner))
               else if before.state == Ended then Requeue
               else if after.epoch == before.epoch then OtherEnds else Reap(after.state == Queued);
      assert WorldEnabled(me, before, w) && WorldRow(before, w) == after;
    }
  }

  // ----- a handback that fails

  /** From any start with a queued run and a free slot: the store fails the handback three times, the goroutine
      reports the claim and leaves, and the row still runs under it until somebody reaps it. */
  lemma AFailedHandbackIsReported(s: State, g: GoId, run: RunId) returns (events: seq<Event>, t: State)
    requires Init(s) && run in s.rows && s.rows[run].state.Queued? && s.workers > 0
    ensures Reaches(s, events, t) && t.slots == 0 && t.gos == map[] && t.driving == {}
    ensures run in t.rows && t.rows[run] == Row(Running, s.me, s.rows[run].epoch + 1)
    ensures (run, s.rows[run].epoch + 1) in t.reported
  {
    hide Reaches, Init, Enabled, Step;
    var epoch := s.rows[run].epoch + 1;
    events, t := ARunIsClaimed(s, g, run);
    events, t := AClaimIsStopped(s, events, t, g, run, epoch);
    events, t := ATryFails(s, events, t, g, run, epoch, 0);
    events, t := ATryFails(s, events, t, g, run, epoch, 1);
    events, t := ATryFails(s, events, t, g, run, epoch, 2);
    events, t := TheDefeatedLeaves(s, events, t, g, run, epoch);
  }

  lemma ATryFails(s: State, before: seq<Event>, u: State, g: GoId, run: RunId, epoch: int, attempt: nat)
    returns (events: seq<Event>, t: State)
    requires Reaches(s, before, u) && u.me == s.me && attempt < 3
    requires Scene(u, g, Go(run, Some(epoch), false, HandBack(attempt)), Row(Running, s.me, epoch), true)
    ensures Reaches(s, events, t) && t.me == s.me
    ensures Scene(t, g, Go(run, Some(epoch), false, HandBack(attempt + 1)), Row(Running, s.me, epoch), true)
  {
    hide Reaches, Enabled, Step;
    var row := Row(Running, s.me, epoch);
    MoveScene(u, g, Go(run, Some(epoch), false, HandBack(attempt)), row, true, ReadLease);
    events, t := TakeStep(s, before, u, Executor(g, ReadLease));
    MoveScene(t, g, Go(run, Some(epoch), false, Draining(attempt, s.Ref(epoch))), row, true, DrainFails(false));
    events, t := TakeStep(s, events, t, Executor(g, DrainFails(false)));
  }

  lemma TheDefeatedLeaves(s: State, before: seq<Event>, u: State, g: GoId, run: RunId, epoch: int)
    returns (events: seq<Event>, t: State)
    requires Reaches(s, before, u) && u.me == s.me
    requires Scene(u, g, Go(run, Some(epoch), false, HandBack(3)), Row(Running, s.me, epoch), true)
    ensures Reaches(s, events, t) && t.slots == 0 && t.gos == map[] && t.driving == {}
    ensures run in t.rows && t.rows[run] == Row(Running, s.me, epoch) && (run, epoch) in t.reported
  {
    hide Reaches;
    events, t := TakeStep(s, before, u, Executor(g, ReadLease));
    events, t := TakeStep(s, events, t, Pool(Retire(g)));
    events, t := TakeStep(s, events, t, Pool(ReleaseSlot(g)));
  }
}
