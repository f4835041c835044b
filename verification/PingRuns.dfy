/** Every interleaving of the sending and the receiving thread of the ping program. The sender
    claims a slot, transmits, then counts; the receiver finds a slot for a reply, then settles
    it. The network may deliver any sequence number at any time. `Ping.Unpack` of one reply is a
    `Hear` followed at once by the `Settle`; a run may also let the sender in between. */
module PingRuns {
  import opened PingTable

  /** The program's table, where each thread stands, and what happened so far: when each
      tracked request was sent, which of them were answered, which numbers were heard. */
  datatype World = World(
    table: Table,
    sending: bool,              // between claim and count
    holding: Hold,              // between find and settle
    begun: map<int, Time>,
    answered: set<int>,
    heard: set<int>,
    used: nat)                  // slots claimed at least once: a prefix of the table

  datatype Hold = Nothing | Held(k: nat, number: int)

  datatype Event =
    | Claim(now: Time)
    | Sent
    | SendFailed
    | Hear(number: nat)
    | Settle

  const INIT := World(Table(seq(SLOTS, _ => UNUSED), 0, 0), false, Nothing, map[], {}, {}, 0)

  predicate Enabled(w: World, ev: Event) {
    match ev
    case Claim(_) => !w.sending
    case Sent => w.sending
    case SendFailed => w.sending
    case Hear(_) => w.holding.Nothing?
    case Settle => w.holding.Held? && w.holding.k < |w.table.slots|
  }

  /** One step; an event whose thread is elsewhere does nothing. */
  function Step(w: World, ev: Event): World {
    if !Enabled(w, ev) then w else
    match ev
    case Claim(now) =>
      var k := Find(w.table.slots, -1);
      if k == -1 then w.(sending := true)
      else w.(table := ClaimIn(w.table, now), sending := true, begun := w.begun[w.table.sent := now],
              used := if k < w.used then w.used else k + 1)
    case Sent => w.(table := w.table.(sent := ToShort(w.table.sent + 1)), sending := false)
    case SendFailed => w.(sending := false)
    case Hear(number) =>
      var k := Find(w.table.slots, number);
      w.(holding := if k == -1 then Nothing else Held(k, number), heard := w.heard + {number})
    case Settle =>
      w.(table := SettleIn(w.table, w.holding.k), holding := Nothing,
      answered := w.answered + if w.holding.number in w.begun then {w.holding.number} else {})
  }

  // ---------- The invariant ----------

  /** Sequence numbers handed out so far are those below this. */
  function Limit(w: World): int {
    w.table.sent + if w.sending then 1 else 0
  }

  function Flagged(s: seq<Slot>): nat {
    if s == [] then 0 else (if s[0].flag then 1 else 0) + Flagged(s[1..])
  }

  predicate Outstanding(w: World, number: int) {
    number in w.begun && number !in w.answered
  }

  /** Slot `i` was claimed for the tracked request whose number it carries. */
  predicate Owned(w: World, i: nat)
    requires i < |w.table.slots|
  {
    var s := w.table.slots[i];
    && 0 <= s.number < Limit(w) && (s.number == 0 ==> i == 0)
    && s.number in w.begun && s.begin == w.begun[s.number]
    && s.flag == (s.number !in w.answered)
  }

  /** Every slot is owned by a request of its own or was never used. */
  ghost predicate Owners(w: World) {
    var s := w.table.slots;
    && |s| == SLOTS && w.used <= SLOTS
    && 0 <= w.table.sent <= SHRT_MAX && (w.used == 0 ==> Limit(w) == 0)
    && (forall i | 0 <= i < w.used :: Owned(w, i))
    && (forall i, j | 0 <= i < j < w.used :: s[i].number != s[j].number)
    && (forall i | w.used <= i < SLOTS :: s[i] == UNUSED)
    && (forall n | n in w.begun :: 0 <= n < Limit(w))
  }

  /** Every unanswered tracked request has a slot, and the flagged slots number them. */
  ghost predicate Accounts(w: World)
    requires w.used <= |w.table.slots|
  {
    && w.answered <= w.begun.Keys
    && (forall n | Outstanding(w, n) :: exists i :: 0 <= i < w.used && w.table.slots[i].number == n)
    && Flagged(w.table.slots) + |w.answered| == |w.begun|
  }

  /** The slot the receiver holds is the one a search would find again. */
  predicate HoldValid(w: World) {
    w.holding.Held? ==> w.holding.number >= 0 && w.holding.k == Find(w.table.slots, w.holding.number)
  }

  ghost predicate Invariant(w: World) {
    Owners(w) && Accounts(w) && HoldValid(w)
  }

  /** The steps that respect the table. A claim must not take the slot the receiver is holding
      for another number, the counter must not wrap, and a failed transmission must not have
      claimed a slot. */
  ghost predicate Allowed(w: World, ev: Event) {
    match ev
    case Claim(_) =>
      w.holding.Held? && w.holding.k == Find(w.table.slots, -1) ==> w.holding.number == w.table.sent
    case Sent => w.table.sent < SHRT_MAX
    case SendFailed => w.table.sent !in w.begun
    case _ => true
  }

  lemma {:induction false} FlaggedUpdate(s: seq<Slot>, k: nat, x: Slot)
    requires k < |s|
    ensures Flagged(s[k := x]) == Flagged(s) - (if s[k].flag then 1 else 0) + (if x.flag then 1 else 0)
  {
    if k == 0 {
      assert s[k := x][1..] == s[1..];
    } else {
      assert s[k := x][1..] == s[1..][k - 1 := x];
      FlaggedUpdate(s[1..], k - 1, x);
    }
  }

  lemma {:induction false} NoneFlagged(s: seq<Slot>)
    requires forall i | 0 <= i < |s| :: !s[i].flag
    ensures Flagged(s) == 0
  {
    if s != [] {
      NoneFlagged(s[1..]);
    }
  }

  lemma InitInvariant()
    ensures Invariant(INIT)
  {
    NoneFlagged(INIT.table.slots);
  }

  /** Although the search ignores `flag`, it finds for an outstanding request exactly the slot
      claimed for it, with the time it was sent. */
  lemma OwnSlotFound(w: World, number: int)
    requires Invariant(w) && Outstanding(w, number)
    ensures
      var k := Find(w.table.slots, number);
      0 <= k < w.used && w.table.slots[k] == Slot(w.begun[number], number, true)
  {
    var s := w.table.slots;
    var i :| 0 <= i < w.used && s[i].number == number;
    assert Owned(w, i);
    var k := Find(s, number);
    assert k != -1 && k <= i;
    assert Owned(w, k);
  }

  // ---------- Preservation, step by step ----------

  lemma ClaimKeepsOwners(w: World, now: Time)
    requires Invariant(w) && Enabled(w, Claim(now))
    ensures Owners(Step(w, Claim(now)))
  {
    var k, w' := Find(w.table.slots, -1), Step(w, Claim(now));
    assert w.used < SLOTS ==> w.table.slots[w.used] == UNUSED;
    assert w.used > 0 ==> Owned(w, 0);
    forall i | 0 <= i < w'.used ensures Owned(w', i) {
      assert i != k ==> Owned(w, i);
    }
    forall i, j | 0 <= i < j < w'.used ensures w'.table.slots[i].number != w'.table.slots[j].number {
      assert i < w.used ==> Owned(w, i);
      assert j < w.used ==> Owned(w, j);
    }
  }

  lemma ClaimKeepsAccounts(w: World, now: Time)
    requires Invariant(w) && Enabled(w, Claim(now))
    requires Owners(Step(w, Claim(now)))
    ensures Accounts(Step(w, Claim(now)))
  {
    var s, k, w' := w.table.slots, Find(w.table.slots, -1), Step(w, Claim(now));
    if k == -1 {
      assert forall n | Outstanding(w', n) :: Outstanding(w, n);
    } else {
      FlaggedUpdate(s, k, Slot(now, w.table.sent, true));
      assert w'.table.slots[k].number == w.table.sent;
      forall n | Outstanding(w', n) && n != w.table.sent
        ensures exists i :: 0 <= i < w'.used && w'.table.slots[i].number == n
      {
        assert Outstanding(w, n);
        var i :| 0 <= i < w.used && s[i].number == n;
        assert Owned(w, i) && w'.table.slots[i].number == n;
      }
    }
  }

  /** A claim leaves the receiver's find valid exactly when it is allowed. */
  lemma HoldSurvivesClaim(w: World, now: Time)
    requires Invariant(w) && Enabled(w, Claim(now))
    ensures
      var h := w.holding;
      h.Held? ==> (h.k == Find(Step(w, Claim(now)).table.slots, h.number) <==> Allowed(w, Claim(now)))
  {
    var s, k, h := w.table.slots, Find(w.table.slots, -1), w.holding;
    if k == -1 || h.Nothing? {
      return;
    }
    var s' := Step(w, Claim(now)).table.slots;
    assert w.used > 0 ==> Owned(w, 0);
    forall j | 0 <= j < w.used ensures s[j].number < w.table.sent {
      assert Owned(w, j);
    }
    if h.k != k {
      assert h.number != w.table.sent;
      assert forall j | 0 <= j < h.k :: s'[j].number != h.number;
      assert s'[h.k].number == h.number;
    }
  }

  /** A reply that comes too late, or answers nothing, changes no flag and no record. */
  lemma SettleLate(w: World)
    requires Invariant(w) && Enabled(w, Settle) && !Outstanding(w, w.holding.number)
    ensures Step(w, Settle).table.slots == w.table.slots && Step(w, Settle).answered == w.answered
    ensures Invariant(Step(w, Settle))
  {
    hide Flagged, ToShort;
    var w' := Step(w, Settle);
    assert w.table.slots[w.holding.k].number == w.holding.number;
    hide Find;
    assert w.holding.k < w.used ==> Owned(w, w.holding.k);
    assert w'.table.slots == w.table.slots && w'.answered == w.answered;
    forall i | 0 <= i < w.used ensures Owned(w', i) {
      assert Owned(w, i);
    }
    assert forall m | Outstanding(w', m) :: Outstanding(w, m);
  }

  /** A reply to an outstanding request changes one slot: the one claimed for that request. */
  lemma SettleInTime(w: World)
    requires Invariant(w) && Enabled(w, Settle) && Outstanding(w, w.holding.number)
    ensures
      var k, n := w.holding.k, w.holding.number;
      w.table.slots[k] == Slot(w.begun[n], n, true) &&
      Step(w, Settle).table.slots == w.table.slots[k := Slot(w.begun[n], n, false)]
    ensures Invariant(Step(w, Settle))
  {
    hide Flagged, ToShort, Find;
    var s, k, w' := w.table.slots, w.holding.k, Step(w, Settle);
    OwnSlotFound(w, w.holding.number);
    FlaggedUpdate(s, k, s[k].(flag := false));
    forall i | 0 <= i < w.used ensures Owned(w', i) {
      assert Owned(w, i);
    }
    forall m | Outstanding(w', m) ensures exists i :: 0 <= i < w.used && w'.table.slots[i].number == m {
      assert Outstanding(w, m);
      var i :| 0 <= i < w.used && s[i].number == m;
      assert w'.table.slots[i].number == m;
    }
  }

  lemma SendFailedStep(w: World)
    requires Invariant(w) && Enabled(w, SendFailed)
    ensures Invariant(Step(w, SendFailed)) <==> w.table.sent !in w.begun
  {
    var w' := Step(w, SendFailed);
    if w.table.sent !in w.begun {
      forall i | 0 <= i < w.used ensures Owned(w', i) {
        assert Owned(w, i);
      }
      assert forall n | Outstanding(w', n) :: Outstanding(w, n);
    }
  }

  lemma SentStep(w: World)
    requires Invariant(w) && Enabled(w, Sent)
    ensures Invariant(Step(w, Sent)) <==> w.table.sent < SHRT_MAX
  {
    var w' := Step(w, Sent);
    if w.table.sent < SHRT_MAX {
      assert Limit(w') == Limit(w);
      forall i | 0 <= i < w.used ensures Owned(w', i) {
        assert Owned(w, i);
      }
      assert forall n | Outstanding(w', n) :: Outstanding(w, n);
    }
  }

  lemma HearStep(w: World, number: nat)
    requires Invariant(w) && Enabled(w, Hear(number))
    ensures Invariant(Step(w, Hear(number)))
  {
    var w' := Step(w, Hear(number));
    forall i | 0 <= i < w.used ensures Owned(w', i) {
      assert Owned(w, i);
    }
    assert forall n | Outstanding(w', n) :: Outstanding(w, n);
  }

  /** Exactly the allowed steps keep the table's invariant. */
  lemma StepKeepsInvariant(w: World, ev: Event)
    requires Invariant(w) && Enabled(w, ev)
    ensures Invariant(Step(w, ev)) <==> Allowed(w, ev)
  {
    match ev
    case Claim(now) =>
      HoldSurvivesClaim(w, now);
      if Allowed(w, ev) {
        ClaimKeepsOwners(w, now);
        ClaimKeepsAccounts(w, now);
      }
    case Sent => SentStep(w);
    case SendFailed => SendFailedStep(w);
    case Hear(number) => HearStep(w, number);
    case Settle =>
      if Outstanding(w, w.holding.number) {
        SettleInTime(w);
      } else {
        SettleLate(w);
      }
  }

  // ---------- Whole runs ----------

  function Run(w: World, evs: seq<Event>): World
    decreases |evs|
  {
    if evs == [] then w else Run(Step(w, evs[0]), evs[1..])
  }

  /** Every step that is taken is an allowed one. */
  ghost predicate Good(w: World, evs: seq<Event>)
    decreases |evs|
  {
    evs == [] || ((Enabled(w, evs[0]) ==> Allowed(w, evs[0])) && Good(Step(w, evs[0]), evs[1..]))
  }

  lemma {:induction false} RunKeepsInvariant(w: World, evs: seq<Event>)
    requires Invariant(w) && Good(w, evs)
    ensures Invariant(Run(w, evs))
    decreases |evs|
  {
    if evs != [] {
      if Enabled(w, evs[0]) {
        StepKeepsInvariant(w, evs[0]);
      }
      RunKeepsInvariant(Step(w, evs[0]), evs[1..]);
    }
  }

  lemma {:induction false} FlaggedBound(s: seq<Slot>)
    ensures Flagged(s) <= |s|
  {
    if s != [] {
      FlaggedBound(s[1..]);
    }
  }

  /** In every state a good run reaches, the numbers in use are distinct, each outstanding
      request is found in its own slot with its own send time, and the flagged slots number the
      tracked requests not yet answered. */
  lemma ReachableTable(evs: seq<Event>)
    requires Good(INIT, evs)
    ensures
      var w := Run(INIT, evs);
      var s := w.table.slots;
      && (forall i, j | 0 <= i < j < w.used && j < |s| :: s[i].number != s[j].number)
      && (forall n | Outstanding(w, n) ::
            Find(s, n) != -1 && s[Find(s, n)] == Slot(w.begun[n], n, true))
      && Flagged(s) == |w.begun| - |w.answered| && Flagged(s) <= SLOTS
  {
    InitInvariant();
    RunKeepsInvariant(INIT, evs);
    var w := Run(INIT, evs);
    FlaggedBound(w.table.slots);
    forall n | Outstanding(w, n)
      ensures Find(w.table.slots, n) != -1 && w.table.slots[Find(w.table.slots, n)] == Slot(w.begun[n], n, true)
    {
      OwnSlotFound(w, n);
    }
  }

  /** A request stays outstanding, in its slot, until a reply to it is settled: no claim
      overwrites it, and no duplicate, late or untracked reply clears it. */
  lemma OutstandingPersists(w: World, ev: Event, n: int)
    requires Invariant(w) && Enabled(w, ev) && Allowed(w, ev) && Outstanding(w, n)
    requires ev.Settle? ==> w.holding.number != n
    ensures
      var w' := Step(w, ev);
      && Outstanding(w', n) && w'.begun[n] == w.begun[n]
      && w'.table.slots[Find(w.table.slots, n)] == Slot(w.begun[n], n, true)
  {
    OwnSlotFound(w, n);
    if ev.Settle? {
      if Outstanding(w, w.holding.number) {
        SettleInTime(w);
      } else {
        SettleLate(w);
      }
    }
  }

  /** What a claim that is not allowed leads to: once the receiver settles, the new request has
      no answer and yet no flagged slot. */
  lemma ReclaimedSlotIsLost(w: World, now: Time)
    requires Invariant(w) && Enabled(w, Claim(now)) && !Allowed(w, Claim(now))
    ensures
      var lost := Step(Step(w, Claim(now)), Settle);
      && Outstanding(lost, w.table.sent)
      && forall i | 0 <= i < SLOTS && lost.table.slots[i].number == w.table.sent :: !lost.table.slots[i].flag
  {
    var k, s := w.holding.k, w.table.slots;
    forall i | 0 <= i < SLOTS && i != k && s[i].number == w.table.sent ensures !s[i].flag {
      assert i < w.used ==> Owned(w, i);
    }
  }

  /** It happens when a duplicate reply is being handled while the sender claims. */
  lemma ReclaimHappens(now: Time)
    ensures
      var evs := [Claim(now), Sent, Hear(0), Settle, Hear(0)];
      Good(INIT, evs) && Enabled(Run(INIT, evs), Claim(now)) && !Allowed(Run(INIT, evs), Claim(now))
  {
    var w1 := Step(INIT, Claim(now));
    var w2 := Step(w1, Sent);
    var w3 := Step(w2, Hear(0));
    var w4 := Step(w3, Settle);
    var w5 := Step(w4, Hear(0));
    assert w5.holding == Held(0, 0) && w5.table.sent == 1 && !w5.table.slots[0].flag;
    RunCons(w4, Hear(0), []);
    RunCons(w3, Settle, [Hear(0)]);
    RunCons(w2, Hear(0), [Settle, Hear(0)]);
    RunCons(w1, Sent, [Hear(0), Settle, Hear(0)]);
    RunCons(INIT, Claim(now), [Sent, Hear(0), Settle, Hear(0)]);
  }

  /** What a failed transmission with a claimed slot leads to: the next claim reuses the number,
      and two flagged slots carry it. */
  lemma FailedSendDuplicates(w: World, now: Time)
    requires Invariant(w) && w.sending && Outstanding(w, w.table.sent) && Find(w.table.slots, -1) != -1
    ensures
      var n, w' := w.table.sent, Step(Step(w, SendFailed), Claim(now));
      var first, second := Find(w.table.slots, n), Find(w.table.slots, -1);
      && first != second && w'.begun[n] == now
      && w'.table.slots[first] == Slot(w.begun[n], n, true) && w'.table.slots[second] == Slot(now, n, true)
  {
    OwnSlotFound(w, w.table.sent);
  }

  /** The lookup may then find the wrong one, here in the first moments of the program: a reply
      to the only request transmitted is timed from the transmission that failed. */
  lemma FailedSendMistimes(t1: Time, t2: Time)
    ensures
      var w := Run(INIT, [Claim(t1), SendFailed, Claim(t2), Sent]);
      Outstanding(w, 0) && w.begun[0] == t2 && Find(w.table.slots, 0) == 0 && w.table.slots[0] == Slot(t1, 0, true)
  {
    var w1 := Step(INIT, Claim(t1));
    var w2 := Step(w1, SendFailed);
    assert w2.table.slots == INIT.table.slots[0 := Slot(t1, 0, true)];
    assert Find(w2.table.slots, -1) == 1 by {
      assert w2.table.slots[0].flag && !w2.table.slots[1].flag;
    }
    var w3 := Step(w2, Claim(t2));
    RunCons(w3, Sent, []);
    RunCons(w2, Claim(t2), [Sent]);
    RunCons(w1, SendFailed, [Claim(t2), Sent]);
    RunCons(INIT, Claim(t1), [SendFailed, Claim(t2), Sent]);
  }

  /** What a wrapped counter leads to: sequence numbers that no reply can be looked up by. */
  lemma WrappedSlotIsLost(w: World, now: Time, number: nat)
    requires w.table.sent < 0 && Enabled(w, Claim(now)) && Find(w.table.slots, -1) != -1
    ensures Find(Step(w, Claim(now)).table.slots, number) != Find(w.table.slots, -1)
  {}

  /** `count` rounds of one request and one reply each, from sequence number `n` on. */
  function Rounds(now: Time, n: nat, count: nat): seq<Event>
    decreases count
  {
    if count == 0 then []
    else [Claim(now)] + ([Sent] + ([Hear(n)] + ([Settle] + Rounds(now, n + 1, count - 1))))
  }

  /** At rest with slot 0 free. */
  predicate Resting(w: World) {
    !w.sending && w.holding.Nothing? && |w.table.slots| == SLOTS && !w.table.slots[0].flag
  }

  lemma RunFour(w: World, a: Event, b: Event, c: Event, d: Event, rest: seq<Event>) returns (w4: World)
    ensures w4 == Step(Step(Step(Step(w, a), b), c), d)
    ensures Run(w, [a] + ([b] + ([c] + ([d] + rest)))) == Run(w4, rest)
  {
    hide Step, Run;
    w4 := Step(Step(Step(Step(w, a), b), c), d);
    RunCons(Step(Step(Step(w, a), b), c), d, rest);
    RunCons(Step(Step(w, a), b), c, [d] + rest);
    RunCons(Step(w, a), b, [c] + ([d] + rest));
    RunCons(w, a, [b] + ([c] + ([d] + rest)));
  }

  lemma OneRound(w: World, now: Time)
    requires Resting(w) && 0 <= w.table.sent <= SHRT_MAX
    ensures
      var w' := Step(Step(Step(Step(w, Claim(now)), Sent), Hear(w.table.sent)), Settle);
      Resting(w') && w'.table.sent == ToShort(w.table.sent + 1)
  {
    assert Find(w.table.slots, -1) == 0;
    var w2 := Step(Step(w, Claim(now)), Sent);
    assert w2.table.slots == w.table.slots[0 := Slot(now, w.table.sent, true)];
    assert Find(w2.table.slots, w.table.sent) == 0;
  }

  lemma RoundsStep(w: World, now: Time, n: nat, count: nat) returns (w4: World)
    ensures w4 == Step(Step(Step(Step(w, Claim(now)), Sent), Hear(n)), Settle)
    ensures Run(w, Rounds(now, n, count + 1)) == Run(w4, Rounds(now, n + 1, count))
  {
    hide Step, Run;
    w4 := RunFour(w, Claim(now), Sent, Hear(n), Settle, Rounds(now, n + 1, count));
  }

  lemma NoRounds(w: World, now: Time, n: nat)
    ensures Run(w, Rounds(now, n, 0)) == w
  {}

  lemma NoWrap(x: int)
    requires 0 <= x <= SHRT_MAX
    ensures ToShort(x) == x
  {}

  lemma {:induction false} RoundsCount(w: World, now: Time, count: nat)
    requires Resting(w) && 0 <= w.table.sent <= SHRT_MAX && w.table.sent + count <= SHRT_MAX + 1
    ensures
      var w' := Run(w, Rounds(now, w.table.sent, count));
      Resting(w') && w'.table.sent == ToShort(w.table.sent + count)
    decreases count
  {
    hide *;
    var n := w.table.sent;
    NoWrap(n);
    if count == 0 {
      NoRounds(w, now, n);
    } else {
      OneRound(w, now);
      var w4 := RoundsStep(w, now, n, count - 1);
      if count == 1 {
        NoRounds(w4, now, n + 1);
      } else {
        NoWrap(n + 1);
        RoundsCount(w4, now, count - 1);
      }
    }
  }

  /** It happens after 32768 requests, however well they are answered. */
  lemma CounterWraps(now: Time)
    ensures
      var w := Run(INIT, Rounds(now, 0, SHRT_MAX + 1));
      Enabled(w, Claim(now)) && w.table.sent == -32768 && Find(w.table.slots, -1) != -1
  {
    hide Rounds, Run;
    RoundsCount(INIT, now, SHRT_MAX + 1);
  }

  lemma {:induction false} RunCons(w: World, ev: Event, evs: seq<Event>)
    ensures Run(w, [ev] + evs) == Run(Step(w, ev), evs)
    ensures Good(w, [ev] + evs) <==> (Enabled(w, ev) ==> Allowed(w, ev)) && Good(Step(w, ev), evs)
  {}

  /** A step of the sender, or a reply handled with no claim in between. */
  datatype Action = Claims(now: Time) | Counts | Replies(number: nat)

  function Events(actions: seq<Action>): seq<Event> {
    if actions == [] then []
    else
      match actions[0]
      case Claims(now) => [Claim(now)] + Events(actions[1..])
      case Counts => [Sent] + Events(actions[1..])
      case Replies(number) => [Hear(number)] + ([Settle] + Events(actions[1..]))
  }

  function Counted(actions: seq<Action>): nat {
    if actions == [] then 0 else (if actions[0].Counts? then 1 else 0) + Counted(actions[1..])
  }

  /** As long as fewer than 32768 requests are sent and none fails, every interleaving in which
      replies are handled whole is a good run, so that all of the above holds of it. */
  lemma {:induction false} WholeRepliesAreGood(w: World, actions: seq<Action>)
    requires w.holding.Nothing? && 0 <= w.table.sent && w.table.sent + Counted(actions) <= SHRT_MAX
    ensures Good(w, Events(actions)) && Run(w, Events(actions)).holding.Nothing?
    decreases |actions|
  {
    if actions != [] {
      var rest := actions[1..];
      match actions[0]
      case Claims(now) =>
        RunCons(w, Claim(now), Events(rest));
        WholeRepliesAreGood(Step(w, Claim(now)), rest);
      case Counts =>
        RunCons(w, Sent, Events(rest));
        WholeRepliesAreGood(Step(w, Sent), rest);
      case Replies(number) =>
        var heard := Step(w, Hear(number));
        RunCons(w, Hear(number), [Settle] + Events(rest));
        RunCons(heard, Settle, Events(rest));
        WholeRepliesAreGood(Step(heard, Settle), rest);
    }
  }

  /** `count` requests that no one answers. */
  function Unanswered(now: Time, count: nat): seq<Event> {
    if count == 0 then [] else [Claim(now)] + ([Sent] + Unanswered(now, count - 1))
  }

  /** The first `n` slots are taken, and no others. */
  predicate Filled(w: World, n: nat) {
    && !w.sending && |w.table.slots| == 128
    && forall i | 0 <= i < 128 :: w.table.slots[i].flag <==> i < n
  }

  lemma FillOne(w: World, now: Time, n: nat)
    requires Filled(w, n)
    ensures Find(w.table.slots, -1) == if n < 128 then n else -1
    ensures Filled(Step(Step(w, Claim(now)), Sent), n + 1)
  {
    var k := Find(w.table.slots, -1);
    assert n < 128 ==> !w.table.slots[n].flag;
    assert k == if n < 128 then n else -1;
  }

  lemma {:induction false} FillMany(w: World, now: Time, n: nat, count: nat)
    requires Filled(w, n)
    ensures Filled(Run(w, Unanswered(now, count)), n + count)
    decreases count
  {
    if count > 0 {
      hide Filled, Step;
      FillOne(w, now, n);
      var w1 := Step(w, Claim(now));
      RunCons(w, Claim(now), [Sent] + Unanswered(now, count - 1));
      RunCons(w1, Sent, Unanswered(now, count - 1));
      FillMany(Step(w1, Sent), now, n + 1, count - 1);
    }
  }

  /** The table tracks 128 unanswered requests, in the order of its slots, and no more. */
  lemma TracksOneHundredAndTwentyEight(now: Time, count: nat)
    ensures Find(Run(INIT, Unanswered(now, count)).table.slots, -1) == if count < 128 then count else -1
  {
    FillMany(INIT, now, 0, count);
    FillOne(Run(INIT, Unanswered(now, count)), now, count);
  }

  // ---------- The statistics ----------

  /** The requests counted and the replies settled in a run. */
  function Sendings(w: World, evs: seq<Event>): nat
    decreases |evs|
  {
    if evs == [] then 0
    else (if evs[0].Sent? && w.sending then 1 else 0) + Sendings(Step(w, evs[0]), evs[1..])
  }

  function Settlings(w: World, evs: seq<Event>): nat
    decreases |evs|
  {
    if evs == [] then 0
    else (if evs[0].Settle? && Enabled(w, evs[0]) then 1 else 0) + Settlings(Step(w, evs[0]), evs[1..])
  }

  /** In every interleaving the counters number the transmissions that succeeded and the replies
      settled, as long as a `short` can hold that many. */
  lemma {:induction false} CountersCount(w: World, evs: seq<Event>)
    requires 0 <= w.table.sent && w.table.sent + Sendings(w, evs) <= 32767
    requires 0 <= w.table.received && w.table.received + Settlings(w, evs) <= 32767
    ensures Run(w, evs).table.sent == w.table.sent + Sendings(w, evs)
    ensures Run(w, evs).table.received == w.table.received + Settlings(w, evs)
    decreases |evs|
  {
    if evs != [] {
      CountersCount(Step(w, evs[0]), evs[1..]);
    }
  }

  /** The network answers each request transmitted at most once, and the program stops before
      its counter wraps. */
  predicate Polite(w: World, ev: Event) {
    match ev
    case Claim(_) => w.table.sent < SHRT_MAX
    case SendFailed => w.table.sent !in w.heard
    case Hear(n) => n !in w.heard && n < Limit(w)
    case _ => true
  }

  ghost predicate PoliteRun(w: World, evs: seq<Event>)
    decreases |evs|
  {
    evs == [] || ((Enabled(w, evs[0]) ==> Polite(w, evs[0])) && PoliteRun(Step(w, evs[0]), evs[1..]))
  }

  ghost predicate Balanced(w: World) {
    && 0 <= w.table.sent && Limit(w) <= SHRT_MAX
    && (forall n | n in w.heard :: 0 <= n < Limit(w))
    && 0 <= w.table.received
    && w.table.received + (if w.holding.Held? then 1 else 0) <= |w.heard|
  }

  lemma {:induction false} AtMost(s: set<int>, n: nat)
    requires forall x | x in s :: 0 <= x < n
    ensures |s| <= n
  {
    if n == 0 {
      assert forall x :: x !in s;
    } else {
      AtMost(s - {n - 1}, n - 1);
      assert s <= s - {n - 1} + {n - 1};
    }
  }

  lemma StepStaysBalanced(w: World, ev: Event)
    requires Balanced(w) && Enabled(w, ev) && Polite(w, ev)
    ensures Balanced(Step(w, ev))
  {
    AtMost(w.heard, Limit(w));
    if ev.Hear? {
      assert |w.heard + {ev.number}| == |w.heard| + 1;
    }
  }

  lemma {:induction false} RunStaysBalanced(w: World, evs: seq<Event>)
    requires Balanced(w) && PoliteRun(w, evs)
    ensures Balanced(Run(w, evs))
    decreases |evs|
  {
    if evs != [] {
      if Enabled(w, evs[0]) {
        StepStaysBalanced(w, evs[0]);
      }
      RunStaysBalanced(Step(w, evs[0]), evs[1..]);
    }
  }

  /** The statistics line makes sense: no more replies than requests, and a loss of 0 to 100
      percent, rounded down. */
  lemma StatisticsMakeSense(evs: seq<Event>)
    requires PoliteRun(INIT, evs) && !Run(INIT, evs).sending
    ensures
      var t := Run(INIT, evs).table;
      && 0 <= t.received <= t.sent
      && (t.sent > 0 ==> 0 <= LossPercent(t) <= 100 && LossPercent(t) == (t.sent - t.received) * 100 / t.sent)
  {
    RunStaysBalanced(INIT, evs);
    var w := Run(INIT, evs);
    AtMost(w.heard, w.table.sent);
    if w.table.sent > 0 {
      Percent(w.table.sent - w.table.received, w.table.sent);
    }
  }

  /** The program does not tell a second answer from the first: with one request answered twice
      it reports two replies to one request, and a loss of -100 percent. */
  lemma DuplicateIsCounted(now: Time)
    ensures
      var w := Run(INIT, [Claim(now), Sent, Hear(0), Settle, Hear(0), Settle]);
      w.table.sent == 1 && w.table.received == 2 && LossPercent(w.table) == -100
  {
    var w1 := Step(INIT, Claim(now));
    var w2 := Step(w1, Sent);
    var w4 := Step(Step(w2, Hear(0)), Settle);
    var w6 := Step(Step(w4, Hear(0)), Settle);
    assert w2.table.slots[0].number == 0 && w4.table.slots[0].number == 0;
    RunCons(INIT, Claim(now), [Sent, Hear(0), Settle, Hear(0), Settle]);
    assert [Claim(now)] + [Sent, Hear(0), Settle, Hear(0), Settle] ==
           [Claim(now), Sent, Hear(0), Settle, Hear(0), Settle];
    var last := RunFour(w2, Hear(0), Settle, Hear(0), Settle, []);
    RunCons(w1, Sent, [Hear(0), Settle, Hear(0), Settle]);
    assert w6.table.sent == 1 && w6.table.received == 2;
  }

  lemma Percent(part: nat, whole: nat)
    requires part <= whole && whole > 0
    ensures 0 <= part * 100 / whole <= 100
  {
    var q := part * 100 / whole;
    assert q * whole <= part * 100;
    assert (q - 100) * whole <= 0;
  }
}
