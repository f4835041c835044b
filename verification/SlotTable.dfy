/** The select server's table of connected descriptors, filled by one thread and emptied by
    another, and the counter both keep beside it. */
module SlotTable {

  const FREE := -1

  function Occupied(hosts: seq<int>): nat {
    if hosts == [] then 0 else (if hosts[0] == FREE then 0 else 1) + Occupied(hosts[1..])
  }

  lemma {:induction false} OccupiedUpdate(hosts: seq<int>, k: nat, fd: int)
    requires k < |hosts|
    ensures Occupied(hosts[k := fd]) ==
            Occupied(hosts) - (if hosts[k] == FREE then 0 else 1) + (if fd == FREE then 0 else 1)
  {
    if k == 0 {
      assert hosts[k := fd][1..] == hosts[1..];
    } else {
      assert hosts[k := fd][1..] == hosts[1..][k - 1 := fd];
      OccupiedUpdate(hosts[1..], k - 1, fd);
    }
  }

  // ---------- Each thread on its own ----------

  /** The search for a slot for `fd`: the first free one is taken and counted. */
  ghost predicate Connects(hosts: seq<int>, number: int, fd: int, hosts': seq<int>, number': int) {
    if FREE !in hosts then hosts' == hosts && number' == number
    else exists k | 0 <= k < |hosts| ::
      hosts[k] == FREE && FREE !in hosts[..k] && hosts' == hosts[k := fd] && number' == number + 1
  }

  /** One pass over the table from slot `i` on: exactly the slots whose descriptor is ready are
      freed, and the counter goes down by their number. */
  ghost predicate Serves(hosts: seq<int>, number: int, ready: set<int>, i: nat, hosts': seq<int>, number': int) {
    && |hosts'| == |hosts|
    && (forall k | 0 <= k < |hosts| ::
          hosts'[k] == if k >= i && hosts[k] != FREE && hosts[k] in ready then FREE else hosts[k])
    && Occupied(hosts') - number' == Occupied(hosts) - number
  }

  class Server {
    const hosts: array<int>
    var number: int

    constructor (table: array<int>)
      ensures hosts == table && number == 0
    {
      hosts := table;
      number := 0;
    }

    /** The search for a slot after `accept` returned `fd`: the first free one is taken. */
    method Connect(fd: int)
      modifies this, hosts
      ensures Connects(old(hosts[..]), old(number), fd, hosts[..], number)
    {
      for i := 0 to hosts.Length
        invariant FREE !in hosts[..i]
        invariant hosts[..] == old(hosts[..]) && number == old(number)
      {
        if hosts[i] == FREE {
          hosts[i] := fd;
          number := number + 1;
          assert hosts[..] == old(hosts[..])[i := fd] && old(hosts[..])[..i] == old(hosts[..i]);
          break;
        }
      }
    }

    /** What follows a `select` that reports `ready`: nothing while the counter is not
        positive, else one pass. */
    method Serve(ready: set<int>)
      modifies this, hosts
      ensures old(number) <= 0 ==> hosts[..] == old(hosts[..]) && number == old(number)
      ensures old(number) > 0 ==> Serves(old(hosts[..]), old(number), ready, 0, hosts[..], number)
    {
      if number <= 0 {
        return;
      }
      for i := 0 to hosts.Length
        invariant forall k | 0 <= k < hosts.Length ::
            hosts[k] == if k < i && old(hosts[k]) != FREE && old(hosts[k]) in ready then FREE else old(hosts[k])
        invariant Occupied(hosts[..]) - number == Occupied(old(hosts[..])) - old(number)
      {
        if hosts[i] != FREE && hosts[i] in ready {
          OccupiedUpdate(hosts[..], i, FREE);
          ghost var before := hosts[..];
          hosts[i] := FREE;
          assert hosts[..] == before[i := FREE];
          number := number - 1;
        }
      }
    }
  }

  // ---------- Both threads, interleaved ----------

  /** The accepting thread: its next action and what it holds. */
  datatype Accepter = Waiting | Scanning(fd: int, i: nat) | Found(fd: int, i: nat) | Placed

  /** The request thread. */
  datatype Requester =
    | Selecting
    | Sweeping(ready: set<int>, i: nat)
    | Hit(ready: set<int>, i: nat)
    | Freed(ready: set<int>, i: nat)

  datatype World = World(hosts: seq<int>, number: int, accepter: Accepter, requester: Requester)

  /** `Accepts` and `Selects` carry what the kernel returned; the other two let a thread take
      its next step. */
  datatype Event = Accepts(fd: int) | AccepterStep | Selects(ready: set<int>) | RequesterStep

  function AccepterNext(w: World): World {
    match w.accepter
    case Waiting => w
    case Scanning(fd, i) =>
      if i >= |w.hosts| then w.(accepter := Waiting)
      else if w.hosts[i] == FREE then w.(accepter := Found(fd, i))
      else w.(accepter := Scanning(fd, i + 1))
    case Found(fd, i) =>
      if i >= |w.hosts| then w else w.(hosts := w.hosts[i := fd], accepter := Placed)
    case Placed => w.(number := w.number + 1, accepter := Waiting)
  }

  function RequesterNext(w: World): World {
    match w.requester
    case Selecting => w
    case Sweeping(ready, i) =>
      if i >= |w.hosts| then w.(requester := Selecting)
      else if w.hosts[i] != FREE && w.hosts[i] in ready then w.(requester := Hit(ready, i))
      else w.(requester := Sweeping(ready, i + 1))
    case Hit(ready, i) =>
      if i >= |w.hosts| then w else w.(hosts := w.hosts[i := FREE], requester := Freed(ready, i))
    case Freed(ready, i) => w.(number := w.number - 1, requester := Sweeping(ready, i + 1))
  }

  function Step(w: World, ev: Event): World {
    match ev
    case Accepts(fd) => if w.accepter.Waiting? then w.(accepter := Scanning(fd, 0)) else w
    case AccepterStep => AccepterNext(w)
    case Selects(ready) => if w.requester.Selecting? && w.number > 0 then w.(requester := Sweeping(ready, 0)) else w
    case RequesterStep => RequesterNext(w)
  }

  /** What each thread saw is still so when it acts: neither touches the slots the other may. */
  predicate Invariant(w: World) {
    && (w.accepter.Found? ==> w.accepter.i < |w.hosts| && w.hosts[w.accepter.i] == FREE)
    && (w.requester.Hit? ==>
          w.requester.i < |w.hosts| && w.hosts[w.requester.i] != FREE && w.hosts[w.requester.i] in w.requester.ready)
  }

  /** Occupied slots less the counter, corrected for the update each thread may be half-way
      through. */
  function Drift(w: World): int {
    Occupied(w.hosts) - w.number - (if w.accepter.Placed? then 1 else 0) + (if w.requester.Freed? then 1 else 0)
  }

  /** This step stores the -1 of a failed `accept`. */
  predicate StoresFailure(w: World, ev: Event) {
    ev.AccepterStep? && w.accepter.Found? && w.accepter.fd == -1
  }

  lemma StepLaw(w: World, ev: Event)
    requires Invariant(w)
    ensures Invariant(Step(w, ev)) && |Step(w, ev).hosts| == |w.hosts|
    ensures Drift(Step(w, ev)) == Drift(w) - if StoresFailure(w, ev) then 1 else 0
  {
    if ev.AccepterStep? && w.accepter.Found? {
      OccupiedUpdate(w.hosts, w.accepter.i, w.accepter.fd);
    }
    if ev.RequesterStep? && w.requester.Hit? {
      OccupiedUpdate(w.hosts, w.requester.i, FREE);
    }
  }

  function Run(w: World, evs: seq<Event>): World
    decreases |evs|
  {
    if evs == [] then w else Run(Step(w, evs[0]), evs[1..])
  }

  function Failures(w: World, evs: seq<Event>): nat
    decreases |evs|
  {
    if evs == [] then 0
    else (if StoresFailure(w, evs[0]) then 1 else 0) + Failures(Step(w, evs[0]), evs[1..])
  }

  /** Over every interleaving the drift changes only by the failed accepts that were stored. */
  lemma {:induction false} DriftConserved(w: World, evs: seq<Event>)
    requires Invariant(w)
    ensures Invariant(Run(w, evs)) && |Run(w, evs).hosts| == |w.hosts|
    ensures Drift(Run(w, evs)) == Drift(w) - Failures(w, evs)
    decreases |evs|
  {
    if evs != [] {
      StepLaw(w, evs[0]);
      DriftConserved(Step(w, evs[0]), evs[1..]);
    }
  }

  /** A slot changes only when the accepting thread fills a free one, or the request thread
      frees one whose descriptor was ready: an accepted descriptor stays until then. */
  lemma SlotChanges(w: World, ev: Event, k: nat)
    requires Invariant(w) && k < |w.hosts|
    ensures
      var after := Step(w, ev).hosts;
      after[k] != w.hosts[k] ==>
        || (w.hosts[k] == FREE && w.accepter == Found(after[k], k) && ev.AccepterStep?)
        || (after[k] == FREE && w.requester.Hit? && w.requester.i == k && w.hosts[k] in w.requester.ready
            && ev.RequesterStep?)
  {}

  predicate Frees(w: World, ev: Event, k: nat)
    requires k < |w.hosts|
  {
    ev.RequesterStep? && w.requester.Hit? && w.requester.i == k && w.hosts[k] in w.requester.ready
  }

  /** Some step of the run frees slot `k` because its descriptor was ready. */
  predicate FreedIn(w: World, evs: seq<Event>, k: nat)
    decreases |evs|
  {
    evs != [] && ((k < |w.hosts| && Frees(w, evs[0], k)) || FreedIn(Step(w, evs[0]), evs[1..], k))
  }

  /** Over every run an accepted descriptor stays in its slot until the request thread frees
      that slot. */
  lemma {:induction false} StoredUntilFreed(w: World, evs: seq<Event>, k: nat)
    requires Invariant(w) && k < |w.hosts| && w.hosts[k] != FREE && !FreedIn(w, evs, k)
    ensures k < |Run(w, evs).hosts| && Run(w, evs).hosts[k] == w.hosts[k]
    decreases |evs|
  {
    if evs != [] {
      StepLaw(w, evs[0]);
      SlotChanges(w, evs[0], k);
      StoredUntilFreed(Step(w, evs[0]), evs[1..], k);
    }
  }

  // ---------- One pass, whatever the other thread does ----------

  predicate Scans(w: World, ev: Event, k: nat) {
    ev.RequesterStep? && w.requester.Sweeping? && w.requester.i == k
  }

  /** The run looks at slot `k`, and if its descriptor is ready then, the run frees it. */
  predicate HandledIn(w: World, evs: seq<Event>, k: nat)
    decreases |evs|
  {
    evs != [] &&
    if Scans(w, evs[0], k)
    then k < |w.hosts| && (w.hosts[k] == FREE || w.hosts[k] !in w.requester.ready || FreedIn(w, evs, k))
    else HandledIn(Step(w, evs[0]), evs[1..], k)
  }

  /** A slot found ready is freed before the pass is over. */
  lemma {:induction false} HitIsFreed(w: World, evs: seq<Event>)
    requires Invariant(w) && w.requester.Hit? && Run(w, evs).requester.Selecting?
    ensures FreedIn(w, evs, w.requester.i)
    decreases |evs|
  {
    if evs != [] && !evs[0].RequesterStep? {
      StepLaw(w, evs[0]);
      HitIsFreed(Step(w, evs[0]), evs[1..]);
    }
  }

  /** Slot `k` is still ahead of the request thread in this pass. */
  predicate Ahead(w: World, k: nat) {
    match w.requester
    case Selecting => false
    case Sweeping(_, i) => i <= k
    case Hit(_, i) => i < k
    case Freed(_, i) => i < k
  }

  /** In every interleaving a pass that comes to its end looked at every slot it had ahead, and
      freed each one whose descriptor was ready when it did. */
  lemma {:induction false} PassHandlesAll(w: World, evs: seq<Event>, k: nat)
    requires Invariant(w) && Ahead(w, k) && k < |w.hosts| && Run(w, evs).requester.Selecting?
    ensures HandledIn(w, evs, k)
    decreases |evs|
  {
    hide Occupied;
    if evs != [] {
      var w1 := Step(w, evs[0]);
      StepLaw(w, evs[0]);
      if !Scans(w, evs[0], k) {
        PassHandlesAll(w1, evs[1..], k);
      } else if w.hosts[k] != FREE && w.hosts[k] in w.requester.ready {
        HitIsFreed(w1, evs[1..]);
      }
    }
  }

  /** The search under way gives its descriptor up before it finds a place. */
  predicate DroppedIn(w: World, evs: seq<Event>)
    decreases |evs|
  {
    evs != [] &&
    if evs[0].AccepterStep? && w.accepter.Found? then false
    else if evs[0].AccepterStep? && w.accepter.Scanning? && w.accepter.i >= |w.hosts| then true
    else DroppedIn(Step(w, evs[0]), evs[1..])
  }

  /** The next time the accepting thread looks at slot `k`, the slot is occupied. */
  predicate SeenOccupied(w: World, evs: seq<Event>, k: nat)
    decreases |evs|
  {
    evs != [] &&
    if evs[0].AccepterStep? && w.accepter.Scanning? && w.accepter.i == k
    then k < |w.hosts| && w.hosts[k] != FREE
    else SeenOccupied(Step(w, evs[0]), evs[1..], k)
  }

  lemma {:induction false} FoundIsKept(w: World, evs: seq<Event>)
    requires w.accepter.Found?
    ensures !DroppedIn(w, evs)
    decreases |evs|
  {
    if evs != [] && !evs[0].AccepterStep? {
      FoundIsKept(Step(w, evs[0]), evs[1..]);
    }
  }

  /** In every interleaving an accepted descriptor is dropped only if every slot was occupied
      when the accepting thread looked at it. */
  lemma {:induction false} DroppedOnlyIfFull(w: World, evs: seq<Event>, k: nat)
    requires Invariant(w) && w.accepter.Scanning? && w.accepter.i <= k < |w.hosts| && DroppedIn(w, evs)
    ensures SeenOccupied(w, evs, k)
    decreases |evs|
  {
    hide Occupied;
    var w1 := Step(w, evs[0]);
    StepLaw(w, evs[0]);
    if evs[0].AccepterStep? && w.hosts[w.accepter.i] == FREE {
      FoundIsKept(w1, evs[1..]);
    } else if !(evs[0].AccepterStep? && w.accepter.i == k) {
      DroppedOnlyIfFull(w1, evs[1..], k);
    }
  }

  // ---------- One thread undisturbed ----------

  function Repeat(ev: Event, n: nat): seq<Event> {
    if n == 0 then [] else [ev] + Repeat(ev, n - 1)
  }

  lemma RepeatStep(w: World, ev: Event, n: nat)
    requires n > 0
    ensures Run(w, Repeat(ev, n)) == Run(Step(w, ev), Repeat(ev, n - 1))
  {
    assert Repeat(ev, n)[1..] == Repeat(ev, n - 1);
  }

  lemma {:induction false} IdleAccepter(w: World, n: nat)
    requires w.accepter.Waiting?
    ensures Run(w, Repeat(AccepterStep, n)) == w
  {
    if n > 0 {
      RepeatStep(w, AccepterStep, n);
      IdleAccepter(w, n - 1);
    }
  }

  lemma {:induction false} IdleRequester(w: World, n: nat)
    requires w.requester.Selecting?
    ensures Run(w, Repeat(RequesterStep, n)) == w
  {
    if n > 0 {
      RepeatStep(w, RequesterStep, n);
      IdleRequester(w, n - 1);
    }
  }

  /** The accepting thread's steps, taken without the other thread, have the effect of
      `Server.Connect`. */
  lemma {:induction false} ScanConnects(w: World, n: nat)
    requires w.accepter.Scanning? && w.accepter.i <= |w.hosts| && FREE !in w.hosts[..w.accepter.i]
    requires n >= |w.hosts| - w.accepter.i + 3
    ensures
      var w' := Run(w, Repeat(AccepterStep, n));
      && Connects(w.hosts, w.number, w.accepter.fd, w'.hosts, w'.number)
      && w'.accepter.Waiting? && w'.requester == w.requester
    decreases |w.hosts| - w.accepter.i
  {
    var i, w1 := w.accepter.i, Step(w, AccepterStep);
    RepeatStep(w, AccepterStep, n);
    if i == |w.hosts| {
      assert w.hosts[..i] == w.hosts;
      IdleAccepter(w1, n - 1);
    } else if w.hosts[i] == FREE {
      var w2 := Step(w1, AccepterStep);
      RepeatStep(w1, AccepterStep, n - 1);
      RepeatStep(w2, AccepterStep, n - 2);
      IdleAccepter(Step(w2, AccepterStep), n - 3);
      assert Connects(w.hosts, w.number, w.accepter.fd, w2.hosts, w.number + 1);
    } else {
      assert w.hosts[..i + 1] == w.hosts[..i] + [w.hosts[i]];
      ScanConnects(w1, n - 1);
    }
  }

  /** The request thread's steps, taken without the other thread, have the effect of
      `Server.Serve`. */
  lemma {:induction false} SweepServes(w: World, n: nat)
    requires w.requester.Sweeping? && w.requester.i <= |w.hosts| && n >= 3 * (|w.hosts| - w.requester.i) + 1
    ensures
      var w' := Run(w, Repeat(RequesterStep, n));
      && Serves(w.hosts, w.number, w.requester.ready, w.requester.i, w'.hosts, w'.number)
      && w'.requester.Selecting? && w'.accepter == w.accepter
    decreases |w.hosts| - w.requester.i
  {
    hide Occupied, Run, Repeat;
    var i, w1 := w.requester.i, Step(w, RequesterStep);
    RepeatStep(w, RequesterStep, n);
    if i == |w.hosts| {
      IdleRequester(w1, n - 1);
    } else if w1.requester.Hit? {
      var w2 := Step(w1, RequesterStep);
      RepeatStep(w1, RequesterStep, n - 1);
      RepeatStep(w2, RequesterStep, n - 2);
      OccupiedUpdate(w.hosts, i, FREE);
      SweepServes(Step(w2, RequesterStep), n - 3);
    } else {
      SweepServes(w1, n - 1);
    }
  }

  /** So a descriptor accepted by a thread left alone is treated as `Server.Connect` does ... */
  lemma AcceptConnects(w: World, fd: int, n: nat)
    requires w.accepter.Waiting? && n >= |w.hosts| + 3
    ensures
      var w' := Run(Step(w, Accepts(fd)), Repeat(AccepterStep, n));
      Connects(w.hosts, w.number, fd, w'.hosts, w'.number) && w'.accepter.Waiting? && w'.requester == w.requester
  {
    ScanConnects(Step(w, Accepts(fd)), n);
  }

  /** ... and ready descriptors as `Server.Serve` does: not at all while the counter is not
      positive. */
  lemma SelectServes(w: World, ready: set<int>, n: nat)
    requires w.requester.Selecting? && n >= 3 * |w.hosts| + 1
    ensures
      var w' := Run(Step(w, Selects(ready)), Repeat(RequesterStep, n));
      && (w.number <= 0 ==> w' == w)
      && (w.number > 0 ==> Serves(w.hosts, w.number, ready, 0, w'.hosts, w'.number))
      && w'.requester.Selecting? && w'.accepter == w.accepter
  {
    if w.number <= 0 {
      IdleRequester(w, n);
    } else {
      SweepServes(Step(w, Selects(ready)), n);
    }
  }

  // ---------- The start ----------

  const CLIENTNUM: nat := 1024

  /** The table after `memset(connect_host, -1, bytes)` over zeroed 4-byte integers. */
  function AfterMemset(bytes: nat): (hosts: seq<int>)
    requires bytes % 4 == 0 && bytes <= 4 * CLIENTNUM
    ensures |hosts| == CLIENTNUM
  {
    seq(bytes / 4, _ => FREE) + seq(CLIENTNUM - bytes / 4, _ => 0)
  }

  lemma {:induction false} OccupiedAppend(a: seq<int>, b: seq<int>)
    ensures Occupied(a + b) == Occupied(a) + Occupied(b)
  {
    if a == [] {
      assert a + b == b;
    } else {
      assert (a + b)[1..] == a[1..] + b;
      OccupiedAppend(a[1..], b);
    }
  }

  lemma {:induction false} OccupiedConstant(n: nat, fd: int)
    ensures Occupied(seq(n, _ => fd)) == if fd == FREE then 0 else n
  {
    if n > 0 {
      assert seq(n, _ => fd)[1..] == seq(n - 1, _ => fd);
      OccupiedConstant(n - 1, fd);
    }
  }

  /** The counter counts the occupied slots, whenever no update is half-way through and no
      failed accept was stored, exactly if the initial fill covers the whole table. */
  lemma CounterIsRight(bytes: nat, evs: seq<Event>)
    requires bytes % 4 == 0 && bytes <= 4 * CLIENTNUM
    ensures
      var start := World(AfterMemset(bytes), 0, Waiting, Selecting);
      var w := Run(start, evs);
      Failures(start, evs) == 0 && !w.accepter.Placed? && !w.requester.Freed? ==>
        (w.number == Occupied(w.hosts) <==> bytes == 4 * CLIENTNUM) &&
        w.number == Occupied(w.hosts) - (CLIENTNUM - bytes / 4)
  {
    var start := World(AfterMemset(bytes), 0, Waiting, Selecting);
    OccupiedAppend(seq(bytes / 4, _ => FREE), seq(CLIENTNUM - bytes / 4, _ => 0));
    OccupiedConstant(bytes / 4, FREE);
    OccupiedConstant(CLIENTNUM - bytes / 4, 0);
    DriftConserved(start, evs);
  }

  /** The server clears `CLIENTNUM` bytes, a quarter of its table: the counter stays 768 short. */
  lemma CounterFallsShort(evs: seq<Event>)
    ensures
      var start := World(AfterMemset(CLIENTNUM), 0, Waiting, Selecting);
      var w := Run(start, evs);
      Failures(start, evs) == 0 && !w.accepter.Placed? && !w.requester.Freed? ==> w.number == Occupied(w.hosts) - 768
  {
    CounterIsRight(CLIENTNUM, evs);
  }
}
