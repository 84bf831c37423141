/** Run rows and their fenced writes (internal/store/runlease.go, internal/store/transitions.go), and the
    run-lease keeper of internal/engine/leasekeeper.go that remembers which claims this process holds. */
module Lease {
  import opened Options

  type RunId = string
  type Owner = string

  // ----- the row

  datatype RunState = Queued | Running | Ended
  datatype Row = Row(state: RunState, owner: Owner, epoch: int)
  datatype LeaseRef = LeaseRef(owner: Owner, epoch: int)

  predicate Holds(row: Row, ref: LeaseRef) {
    row.state.Running? && row.owner == ref.owner && row.epoch == ref.epoch
  }

  /** A claim takes a queued row and raises its token. */
  function ClaimedRow(row: Row, owner: Owner): Row {
    Row(Running, owner, row.epoch + 1)
  }

  /** A reaper takes a running row from whoever held it, to the queue or to an end. */
  function ReapedRow(row: Row, requeue: bool): Row {
    Row(if requeue then Queued else Ended, "", row.epoch + 1)
  }

  /** A verdict and a handback are fenced: they land exactly when the row is still held at the token. */
  function FinishedRow(row: Row, ref: LeaseRef): Row {
    if Holds(row, ref) then Row(Ended, "", row.epoch) else row
  }

  function DrainedRow(row: Row, ref: LeaseRef): Row {
    if Holds(row, ref) then Row(Queued, "", row.epoch + 1) else row
  }

  /** The token has left this owner and can never come back to it. */
  predicate Gone(row: Row, ref: LeaseRef) {
    !Holds(row, ref) && ref.epoch <= row.epoch
  }

  const HAND_BACK_ATTEMPTS := 3

  // ----- the keeper's book, over any kind of handle

  function Forgotten<H>(held: map<RunId, H>, epochOf: H -> int, run: RunId, epoch: int): map<RunId, H> {
    if run in held && epochOf(held[run]) == epoch then held - {run} else held
  }

  function Dropped<H(==)>(held: map<RunId, H>, run: RunId, h: H): map<RunId, H> {
    if run in held && held[run] == h then held - {run} else held
  }

  // ----- the keeper itself

  datatype Renewal = Renewal(run: RunId, epoch: int, cancelRequested: bool)

  class HeldRun {
    const epoch: int
    var cancelOnce: bool
    var lostOnce: bool
    var cancelClosed: bool
    var lostClosed: bool

    predicate Valid()
      reads this
    {
      cancelOnce == cancelClosed && lostOnce == lostClosed
    }

    constructor (epoch: int)
      ensures Valid() && this.epoch == epoch && !cancelClosed && !lostClosed
    {
      this.epoch := epoch;
      cancelOnce, lostOnce, cancelClosed, lostClosed := false, false, false, false;
    }

    // Closing a closed channel panics.
    method CloseCancel()
      requires !cancelClosed
      modifies `cancelClosed
      ensures cancelClosed
    {
      cancelClosed := true;
    }

    method CloseLost()
      requires !lostClosed
      modifies `lostClosed
      ensures lostClosed
    {
      lostClosed := true;
    }

    method SignalCancel()
      requires Valid()
      modifies `cancelOnce, `cancelClosed
      ensures Valid() && cancelClosed
    {
      if !cancelOnce {
        cancelOnce := true;
        CloseCancel();
      }
    }

    method SignalLost()
      requires Valid()
      modifies `lostOnce, `lostClosed
      ensures Valid() && lostClosed
    {
      if !lostOnce {
        lostOnce := true;
        CloseLost();
      }
    }
  }

  function Live(answers: seq<Renewal>): map<RunId, int> {
    if answers == [] then map[]
    else Live(answers[..|answers| - 1])[answers[|answers| - 1].run := answers[|answers| - 1].epoch]
  }

  /** The last answer for the run carries this token. */
  predicate AnsweredLast(answers: seq<Renewal>, run: RunId, epoch: int) {
    exists i :: 0 <= i < |answers| && IsLastAnswer(answers, i, run) && answers[i].epoch == epoch
  }

  predicate IsLastAnswer(answers: seq<Renewal>, i: nat, run: RunId)
    requires i < |answers|
  {
    answers[i].run == run && forall j :: i < j < |answers| ==> answers[j].run != run
  }

  /** The live map holds, for every run answered at all, the token of its last answer. */
  lemma {:induction false} LiveIsTheLastAnswer(answers: seq<Renewal>, run: RunId, epoch: int)
    ensures Confirmed(Live(answers), run, epoch) <==> AnsweredLast(answers, run, epoch)
  {
    if answers != [] {
      var n := |answers| - 1;
      var before := answers[..n];
      LiveIsTheLastAnswer(before, run, epoch);
      if answers[n].run == run {
        assert IsLastAnswer(answers, n, run);
      } else {
        if i :| 0 <= i < n && IsLastAnswer(before, i, run) && before[i].epoch == epoch {
          assert IsLastAnswer(answers, i, run);
        }
        if i :| 0 <= i <= n && IsLastAnswer(answers, i, run) && answers[i].epoch == epoch {
          assert IsLastAnswer(before, i, run);
        }
      }
    }
  }

  /** The answer asks to cancel the run of this handle. */
  predicate AsksFor(snapshot: map<RunId, HeldRun>, a: Renewal, h: HeldRun) {
    a.cancelRequested && a.run in snapshot && snapshot[a.run] == h
  }

  predicate Asked(snapshot: map<RunId, HeldRun>, answers: seq<Renewal>, h: HeldRun) {
    exists i :: 0 <= i < |answers| && AsksFor(snapshot, answers[i], h)
  }

  /** Some answer for the run asks to cancel it, whatever its token. */
  predicate AsksToCancel(answers: seq<Renewal>, run: RunId) {
    exists i :: 0 <= i < |answers| && answers[i].run == run && answers[i].cancelRequested
  }

  lemma AskedByName(snapshot: map<RunId, HeldRun>, answers: seq<Renewal>, run: RunId)
    requires OwnHandles(snapshot) && run in snapshot
    ensures Asked(snapshot, answers, snapshot[run]) <==> AsksToCancel(answers, run)
  {
    if i :| 0 <= i < |answers| && answers[i].run == run && answers[i].cancelRequested {
      assert AsksFor(snapshot, answers[i], snapshot[run]);
    }
  }

  lemma AskedOneMore(snapshot: map<RunId, HeldRun>, answers: seq<Renewal>, a: Renewal, h: HeldRun)
    ensures Asked(snapshot, answers + [a], h) <==> Asked(snapshot, answers, h) || AsksFor(snapshot, a, h)
  {
    hide AsksFor;
    var all := answers + [a];
    if AsksFor(snapshot, a, h) {
      assert AsksFor(snapshot, all[|answers|], h);
    }
    if i :| 0 <= i < |answers| && AsksFor(snapshot, answers[i], h) {
      assert AsksFor(snapshot, all[i], h);
    }
  }

  /** The answer names the run at this very token. */
  predicate Confirmed(live: map<RunId, int>, run: RunId, epoch: int) {
    run in live && live[run] == epoch
  }

  class Engine {
    const owner: Owner
    var held: map<RunId, HeldRun>

    constructor (owner: Owner)
      ensures this.owner == owner && held == map[]
    {
      this.owner := owner;
      held := map[];
    }

    method Hold(run: RunId, epoch: int) returns (h: HeldRun)
      modifies `held
      ensures OwnHandles(old(held)) ==> OwnHandles(held)
      ensures fresh(h) && h.Valid() && h.epoch == epoch && !h.lostClosed && !h.cancelClosed
      ensures held == old(held)[run := h]
    {
      h := new HeldRun(epoch);
      held := held[run := h];
    }

    /** The executor's side of the claim ends; the entry stays for the handback. */
    method Release(h: HeldRun)
      requires h.Valid()
      modifies h
      ensures h.Valid() && h.cancelClosed && h.lostClosed
    {
      h.SignalCancel();
      h.SignalLost();
    }

    method Forget(run: RunId, epoch: int)
      modifies `held
      ensures held == Forgotten(old(held), (h: HeldRun) => h.epoch, run, epoch)
    {
      if run in held && held[run].epoch == epoch {
        held := held - {run};
      }
    }

    method Drop(run: RunId, h: HeldRun)
      modifies `held
      ensures held == Dropped(old(held), run, h)
    {
      if run in held && held[run] == h {
        held := held - {run};
      }
    }

    method HeldLease(run: RunId) returns (ref: LeaseRef, ok: bool)
      ensures ok <==> run in held
      ensures ok ==> ref == LeaseRef(owner, held[run].epoch)
    {
      if run !in held {
        return LeaseRef("", 0), false;
      }
      return LeaseRef(owner, held[run].epoch), true;
    }

    method TellCancels(snapshot: map<RunId, HeldRun>, answers: seq<Renewal>) returns (live: map<RunId, int>)
      requires forall h <- snapshot.Values :: h.Valid()
      modifies snapshot.Values
      ensures live == Live(answers)
      ensures forall run, epoch :: run in live && live[run] == epoch <==> AnsweredLast(answers, run, epoch)
      ensures forall h <- snapshot.Values :: h.Valid() && h.lostClosed == old(h.lostClosed)
      ensures forall h <- snapshot.Values :: h.cancelClosed <==> old(h.cancelClosed) || Asked(snapshot, answers, h)
    {
      live := map[];
      for i := 0 to |answers|
        invariant live == Live(answers[..i])
        invariant forall h <- snapshot.Values :: h.Valid() && h.lostClosed == old(h.lostClosed)
        invariant forall h <- snapshot.Values ::
                    h.cancelClosed <==> old(h.cancelClosed) || Asked(snapshot, answers[..i], h)
      {
        var a := answers[i];
        assert answers[..i + 1] == answers[..i] + [a];
        forall h <- snapshot.Values
          ensures Asked(snapshot, answers[..i + 1], h)
             <==> Asked(snapshot, answers[..i], h) || AsksFor(snapshot, a, h)
        {
          AskedOneMore(snapshot, answers[..i], a, h);
        }
        live := live[a.run := a.epoch];
        if a.cancelRequested && a.run in snapshot {
          snapshot[a.run].SignalCancel();
        }
      }
      assert answers[..|answers|] == answers;
      forall run, epoch ensures run in live && live[run] == epoch <==> AnsweredLast(answers, run, epoch) {
        LiveIsTheLastAnswer(answers, run, epoch);
      }
    }

    method AnswerFor(run: RunId, h: HeldRun, live: map<RunId, int>)
      requires h.Valid()
      modifies `held, h`lostOnce, h`lostClosed
      ensures held == if Confirmed(live, run, h.epoch) then old(held) else Dropped(old(held), run, h)
      ensures h.Valid() && (h.lostClosed <==> old(h.lostClosed) || !Confirmed(live, run, h.epoch))
    {
      if !Confirmed(live, run, h.epoch) {
        h.SignalLost();
        Drop(run, h);
      }
    }

    /** One renewal tick. A store that fails says nothing about ownership. Otherwise exactly the entries the
        answer confirms at their own token stay, exactly the handles that leave are told their lease is lost,
        and exactly those the answer asks to cancel are told so. */
    method RenewOnce(answers: Option<seq<Renewal>>)
      requires (forall h <- held.Values :: h.Valid()) && OwnHandles(held)
      modifies `held, held.Values
      ensures forall run <- held :: run in old(held) && held[run] == old(held)[run]
      ensures forall run <- old(held) ::
                run in held <==> answers.None? || AnsweredLast(answers.value, run, old(held)[run].epoch)
      ensures forall run <- old(held) ::
                old(held)[run].Valid() && (old(held)[run].lostClosed <==> old(held[run].lostClosed) || run !in held)
      ensures forall run <- old(held) ::
                old(held)[run].cancelClosed
                <==> old(held[run].cancelClosed) || (answers.Some? && AsksToCancel(answers.value, run))
    {
      if |held| == 0 {
        return;
      }
      if answers.None? {
        return;
      }
      ghost var snapshot := held;
      var live := TellCancels(held, answers.value);
      forall run <- snapshot
        ensures Asked(snapshot, answers.value, snapshot[run]) <==> AsksToCancel(answers.value, run)
      {
        AskedByName(snapshot, answers.value, run);
      }
      Settle(live);
    }

    /** Partway through the answers: the runs still to do are as they were, the others are settled. */
    ghost predicate Midway(snapshot: map<RunId, HeldRun>, todo: set<RunId>, live: map<RunId, int>,
                           wasLost: map<RunId, bool>)
      reads `held, snapshot.Values
    {
      todo <= snapshot.Keys == wasLost.Keys && held.Keys <= snapshot.Keys && OwnHandles(snapshot)
      && (forall run <- held :: held[run] == snapshot[run])
      && forall run <- snapshot ::
           snapshot[run].Valid()
           && (run in held <==> run in todo || Confirmed(live, run, snapshot[run].epoch))
           && (snapshot[run].lostClosed <==> wasLost[run] || run !in held)
    }

    method SettleOne(run: RunId, h: HeldRun, snapshot: map<RunId, HeldRun>, todo: set<RunId>,
                     live: map<RunId, int>, ghost wasLost: map<RunId, bool>)
      requires Midway(snapshot, todo, live, wasLost) && run in todo && snapshot[run] == h
      modifies `held, h`lostOnce, h`lostClosed
      ensures Midway(snapshot, todo - {run}, live, wasLost)
    {
      hide Confirmed;
      assert forall r <- snapshot :: r != run ==> snapshot[r] != h;
      AnswerFor(run, h, live);
      assert run !in held <==> !Confirmed(live, run, h.epoch);
    }

    method Settle(live: map<RunId, int>)
      requires (forall h <- held.Values :: h.Valid()) && OwnHandles(held)
      modifies `held, held.Values`lostOnce, held.Values`lostClosed
      ensures held.Keys <= old(held).Keys
      ensures forall run <- old(held) :: run in held <==> Confirmed(live, run, old(held)[run].epoch)
      ensures forall run <- held :: held[run] == old(held)[run]
      ensures forall run <- old(held) ::
                old(held)[run].Valid() && (old(held)[run].lostClosed <==> old(held[run].lostClosed) || run !in held)
    {
      hide Confirmed;
      var snapshot := held;
      ghost var wasLost := map run | run in snapshot :: snapshot[run].lostClosed;
      var todo := snapshot.Keys;
      while todo != {}
        invariant Midway(snapshot, todo, live, wasLost)
      {
        var run :| run in todo;
        SettleOne(run, snapshot[run], snapshot, todo, live, wasLost);
        todo := todo - {run};
      }
    }
  }

  /** Every claim is registered under a handle of its own. */
  predicate OwnHandles(held: map<RunId, HeldRun>) {
    forall r, s :: r in held && s in held && held[r] == held[s] ==> r == s
  }

  /** An answer that confirms a run at its token and asks to cancel it only tells the handle so: the entry stays
      and its lease is not lost. */
  method CancelRequestFencesNothing(e: Engine, run: RunId, epoch: int)
    requires (forall h <- e.held.Values :: h.Valid()) && OwnHandles(e.held)
    requires run in e.held && e.held[run].epoch == epoch
    modifies e`held, e.held.Values
    ensures run in e.held && e.held[run] == old(e.held)[run]
    ensures e.held[run].cancelClosed && e.held[run].lostClosed == old(e.held[run].lostClosed)
  {
    var answers := [Renewal(run, epoch, true)];
    assert IsLastAnswer(answers, 0, run) && answers[0].cancelRequested;
    e.RenewOnce(Some(answers));
  }
}
