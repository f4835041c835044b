/** Starting worker threads one at a time: the main thread locks `thread_init`, creates the
    worker and waits for the worker to unlock it. */
module Handshake {

  /** Where the main thread is in `Worker_Add`. */
  datatype Main = Outside | Locked | Created | Relocked | Released

  /** A worker before its unlock, after it, and after its decrement of the counter. */
  datatype Worker = Born | Working | Gone

  /** `held`: the state of `thread_init`. `returned`: how many calls that create a worker have
      returned. */
  datatype World = World(main: Main, held: bool, workers: seq<Worker>, count: int, returned: nat)

  const INIT := World(Outside, false, [], 0, 0)

  datatype Event =
    | Skip              // Worker_Add on a slot that is running returns at once
    | Lock | Create | CreateFails | LockAgain | Unlock | Count
    | WorkerUnlocks(k: nat)
    | WorkerEnds(k: nat)

  predicate Enabled(w: World, ev: Event) {
    match ev
    case Skip => w.main.Outside?
    case Lock => w.main.Outside? && !w.held
    case Create => w.main.Locked?
    case CreateFails => w.main.Locked?
    case LockAgain => w.main.Created? && !w.held
    case Unlock => w.main.Relocked?
    case Count => w.main.Released?
    case WorkerUnlocks(k) => k < |w.workers| && w.workers[k].Born?
    case WorkerEnds(k) => k < |w.workers| && w.workers[k].Working?
  }

  /** One step; an event that is not enabled does nothing. */
  function Step(w: World, ev: Event): World {
    if !Enabled(w, ev) then w else
    match ev
    case Skip => w
    case Lock => w.(held := true, main := Locked)
    case Create => w.(workers := w.workers + [Born], main := Created)
    case CreateFails => w.(main := Created)
    case LockAgain => w.(held := true, main := Relocked)
    case Unlock => w.(held := false, main := Released)
    case Count => w.(count := w.count + 1, returned := w.returned + 1, main := Outside)
    case WorkerUnlocks(k) => w.(held := false, workers := w.workers[k := Working])
    case WorkerEnds(k) => w.(count := w.count - 1, workers := w.workers[k := Gone])
  }

  function Pending(w: World): nat {
    if w.main.Created? || w.main.Relocked? || w.main.Released? then 1 else 0
  }

  function Ended(workers: seq<Worker>): nat {
    if workers == [] then 0 else (if workers[0].Gone? then 1 else 0) + Ended(workers[1..])
  }

  predicate NoneBorn(workers: seq<Worker>) {
    forall k | 0 <= k < |workers| :: !workers[k].Born?
  }

  predicate Invariant(w: World) {
    && |w.workers| == w.returned + Pending(w)
    && w.count + Pending(w) == |w.workers| - Ended(w.workers)
    && match w.main
       case Outside => !w.held && NoneBorn(w.workers)
       case Locked => w.held && NoneBorn(w.workers)
       case Created =>
         && (forall k | 0 <= k < |w.workers| - 1 :: !w.workers[k].Born?)
         && (w.workers[|w.workers| - 1].Born? <==> w.held)
       case Relocked => w.held && NoneBorn(w.workers)
       case Released => !w.held && NoneBorn(w.workers)
  }

  lemma {:induction false} EndedUpdate(workers: seq<Worker>, k: nat, x: Worker)
    requires k < |workers|
    ensures Ended(workers[k := x]) == Ended(workers) - (if workers[k].Gone? then 1 else 0) + (if x.Gone? then 1 else 0)
  {
    if k == 0 {
      assert workers[k := x][1..] == workers[1..];
    } else {
      assert workers[k := x][1..] == workers[1..][k - 1 := x];
      EndedUpdate(workers[1..], k - 1, x);
    }
  }

  lemma {:induction false} EndedPush(workers: seq<Worker>)
    ensures Ended(workers + [Born]) == Ended(workers)
  {
    if workers == [] {
      assert (workers + [Born])[1..] == [];
    } else {
      assert (workers + [Born])[1..] == workers[1..] + [Born];
      EndedPush(workers[1..]);
    }
  }

  /** Every step keeps the handshake in order, exactly unless the creation of a thread fails,
      which the code does not look at. */
  lemma StepKeepsInvariant(w: World, ev: Event)
    requires Invariant(w) && Enabled(w, ev)
    ensures Invariant(Step(w, ev)) <==> !ev.CreateFails?
  {
    match ev {
      case Create =>
        EndedPush(w.workers);
      case WorkerUnlocks(k) =>
        OnlyNewestUnlocks(w, k);
        EndedUpdate(w.workers, k, Working);
      case WorkerEnds(k) =>
        EndedUpdate(w.workers, k, Gone);
      case _ =>
    }
  }

  /** Only the newest worker can be about to unlock, and only while the main thread waits for
      it: no call is released by the unlock of an earlier worker. */
  lemma OnlyNewestUnlocks(w: World, k: nat)
    requires Invariant(w) && k < |w.workers| && w.workers[k].Born?
    ensures k == |w.workers| - 1 && k == w.returned && w.main.Created? && w.held
  {}

  function Run(w: World, evs: seq<Event>): World
    decreases |evs|
  {
    if evs == [] then w else Run(Step(w, evs[0]), evs[1..])
  }

  predicate NoFailure(evs: seq<Event>) {
    forall i | 0 <= i < |evs| :: !evs[i].CreateFails?
  }

  lemma {:induction false} RunKeepsInvariant(w: World, evs: seq<Event>)
    requires Invariant(w) && NoFailure(evs)
    ensures Invariant(Run(w, evs))
    decreases |evs|
  {
    if evs != [] {
      if Enabled(w, evs[0]) {
        StepKeepsInvariant(w, evs[0]);
      }
      RunKeepsInvariant(Step(w, evs[0]), evs[1..]);
    }
  }

  predicate InOrder(w: World) {
    && w.returned <= |w.workers| && (forall k | 0 <= k < w.returned :: !w.workers[k].Born?)
    && (w.main.Outside? ==> !w.held && w.returned == |w.workers|)
    && w.count + Pending(w) == |w.workers| - Ended(w.workers)
  }

  /** In every interleaving, with any number of workers: when a call has returned, its worker
      and all before it are past their unlock and `thread_init` is free, and the counter plus
      the increment still pending is the number of threads created less those past their
      decrement. */
  lemma {:induction false} HandshakeHolds(evs: seq<Event>)
    requires NoFailure(evs)
    ensures InOrder(Run(INIT, evs))
  {
    InitInvariant();
    RunKeepsInvariant(INIT, evs);
    InvariantOrders(Run(INIT, evs));
  }

  lemma InitInvariant()
    ensures Invariant(INIT)
  {}

  lemma InvariantOrders(w: World)
    requires Invariant(w)
    ensures InOrder(w)
  {}

  /** The steps a call still needs: at most its own four and the unlock of its worker. */
  function Needed(w: World): nat {
    match w.main
    case Outside => 0
    case Locked => 5
    case Created => if w.held then 4 else 3
    case Relocked => 2
    case Released => 1
  }

  /** The next of them. */
  function NextNeeded(w: World): Event {
    match w.main
    case Locked => Create
    case Created => if w.held then WorkerUnlocks(if w.workers == [] then 0 else |w.workers| - 1) else LockAgain
    case Relocked => Unlock
    case _ => Count
  }

  /** The run that brings a call to its end. */
  lemma {:induction false} CallReturns(w: World) returns (evs: seq<Event>)
    requires Invariant(w) && !w.main.Outside?
    ensures NoFailure(evs) && |evs| == Needed(w)
    ensures Run(w, evs).main.Outside? && Run(w, evs).returned == w.returned + 1
    decreases Needed(w)
  {
    var ev := NextNeeded(w);
    StepKeepsInvariant(w, ev);
    if Step(w, ev).main.Outside? {
      evs := [ev];
      assert evs[1..] == [];
    } else {
      var rest := CallReturns(Step(w, ev));
      evs := [ev] + rest;
      assert evs[1..] == rest;
    }
  }

  /** The main thread never waits in vain: at any point of a call, at most five steps finish it. */
  lemma NeverStuck(w: World)
    requires Invariant(w) && !w.main.Outside?
    ensures exists evs ::
              && NoFailure(evs) && |evs| <= 5
              && Run(w, evs).main.Outside? && Run(w, evs).returned == w.returned + 1
  {
    var evs := CallReturns(w);
  }

  /** After a failed creation the call waits for an unlock that no thread will perform. */
  predicate Stuck(w: World) {
    w.main.Created? && w.held && NoneBorn(w.workers)
  }

  lemma {:induction false} FailureSticks(w: World, evs: seq<Event>)
    requires Stuck(w)
    ensures Stuck(Run(w, evs)) && Run(w, evs).returned == w.returned
    decreases |evs|
  {
    if evs != [] {
      FailureSticks(Step(w, evs[0]), evs[1..]);
    }
  }

  lemma {:induction false} FailedCreationSticks(w: World, evs: seq<Event>)
    requires Invariant(w) && Enabled(w, CreateFails)
    ensures Stuck(Run(Step(w, CreateFails), evs))
  {
    FailureSticks(Step(w, CreateFails), evs);
  }

  /** A call can still return exactly if no creation has failed in it. */
  lemma ReturnsUnlessStuck(w: World)
    requires (Invariant(w) || Stuck(w)) && !w.main.Outside?
    ensures (exists evs :: NoFailure(evs) && Run(w, evs).returned > w.returned) <==> !Stuck(w)
  {
    if Stuck(w) {
      forall evs ensures Run(w, evs).returned == w.returned {
        FailureSticks(w, evs);
      }
    } else {
      var evs := CallReturns(w);
    }
  }
}
