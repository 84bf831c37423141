/** The executor pool's own bookkeeping (internal/daemon/executors.go): the critical sections of submit and
    of the goroutine's exit, and the bounded handback loop run without interference. */
module Pool {
  import opened Lease

  /** What the store answers one handback with. */
  datatype Answer = Failed | Refused | Handed

  /** The slots in use and the runs being driven. */
  datatype Books = Books(slots: nat, driving: set<RunId>)

  predicate CanStart(b: Books, workers: nat, run: RunId) {
    run !in b.driving && b.slots < workers
  }

  function Started(b: Books, run: RunId): Books {
    Books(b.slots + 1, b.driving + {run})
  }

  function Retired(b: Books, run: RunId): Books {
    b.(driving := b.driving - {run})
  }

  function Freed(b: Books): Books
    requires b.slots > 0
  {
    b.(slots := b.slots - 1)
  }

  class ExecutorPool {
    const workers: nat
    var slots: nat
    var driving: set<RunId>

    function Contents(): Books
      reads this
    {
      Books(slots, driving)
    }

    predicate Valid()
      reads this
    {
      |driving| <= slots <= workers
    }

    constructor (workers: nat)
      ensures Valid() && this.workers == workers && Contents() == Books(0, {})
    {
      this.workers := workers;
      slots, driving := 0, {};
    }

    /** Refuses only when the pool is full; starts an execution only for a run that has none. */
    method Submit(run: RunId) returns (answer: bool, started: bool)
      requires Valid()
      modifies this
      ensures Valid()
      ensures started <==> CanStart(old(Contents()), workers, run)
      ensures Contents() == if started then Started(old(Contents()), run) else old(Contents())
      ensures answer <==> run in driving
      ensures started <==> run !in old(driving) && old(slots) < workers
      ensures driving == if started then old(driving) + {run} else old(driving)
      ensures slots == if started then old(slots) + 1 else old(slots)
    {
      if run in driving {
        return true, false;
      }
      if slots >= workers {
        return false, false;
      }
      slots := slots + 1;
      driving := driving + {run};
      return true, true;
    }

    /** The first half of a goroutine's exit: off the driving book. */
    method Retire(run: RunId)
      requires Valid() && run in driving
      modifies `driving
      ensures Valid() && |driving| < slots && Contents() == Retired(old(Contents()), run)
    {
      driving := driving - {run};
    }

    /** The second half: the slot comes back. */
    method ReleaseSlot()
      requires Valid() && |driving| < slots
      modifies `slots
      ensures Valid() && Contents() == Freed(old(Contents()))
    {
      slots := slots - 1;
    }
  }

  /** Hand the run back when the keeper still holds a token for it: up to three tries, an error only when
      every one of them failed, and the entry forgotten as soon as the store has answered. */
  method HandBackWhenOwed(e: Engine, run: RunId, answers: seq<Answer>) returns (err: bool, attempts: nat)
    requires |answers| == HAND_BACK_ATTEMPTS
    modifies e`held
    ensures err <==> run in old(e.held) && forall i :: 0 <= i < HAND_BACK_ATTEMPTS ==> answers[i].Failed?
    ensures e.held == if err then old(e.held) else old(e.held) - {run}
    ensures attempts <= 3 && (err ==> attempts == 3)
    ensures run in old(e.held) && !err ==> 0 < attempts && !answers[attempts - 1].Failed?
    ensures forall i :: 0 <= i < attempts - 1 ==> answers[i].Failed?
  {
    attempts := 0;
    var attempt := 0;
    while attempt < HAND_BACK_ATTEMPTS
      invariant 0 <= attempt <= HAND_BACK_ATTEMPTS && attempts == attempt
      invariant e.held == old(e.held) && (attempt > 0 ==> run in e.held)
      invariant forall i :: 0 <= i < attempt ==> answers[i].Failed?
    {
      var ref, held := e.HeldLease(run);
      if !held {
        return false, attempts;
      }
      attempts := attempts + 1;
      if answers[attempt].Failed? {
        attempt := attempt + 1;
        continue;
      }
      e.Forget(run, ref.epoch);
      return false, attempts;
    }
    return true, attempts;
  }
}
