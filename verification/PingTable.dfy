/** The table of outstanding echo requests that the sending and the receiving thread of the
    ping program share: 128 slots, first-free allocation, lookup by sequence number. */
module PingTable {
  import opened Bytes
  import opened IcmpEcho

  const SLOTS: nat := 128
  const SHRT_MAX: int := 32767

  datatype Time = Time(sec: int, usec: int)

  /** `flag` is true from the claim of the slot until a reply is found for it. */
  datatype Slot = Slot(begin: Time, number: int, flag: bool)

  const UNUSED := Slot(Time(0, 0), 0, false)

  /** The counters are C `short`s. */
  function ToShort(x: int): int {
    (x + 32768) % 65536 - 32768
  }

  function FirstFree(s: seq<Slot>, i: nat): (k: int)
    requires i <= |s|
    ensures k == -1 || (i <= k < |s| && !s[k].flag)
    ensures forall j | i <= j < if k == -1 then |s| else k :: s[j].flag
    decreases |s| - i
  {
    if i == |s| then -1 else if !s[i].flag then i else FirstFree(s, i + 1)
  }

  function FirstNumbered(s: seq<Slot>, number: int, i: nat): (k: int)
    requires i <= |s|
    ensures k == -1 || (i <= k < |s| && s[k].number == number)
    ensures forall j | i <= j < if k == -1 then |s| else k :: s[j].number != number
    decreases |s| - i
  {
    if i == |s| then -1 else if s[i].number == number then i else FirstNumbered(s, number, i + 1)
  }

  /** The slot a search returns, -1 for NULL. Note that a search by number ignores `flag`. */
  function Find(s: seq<Slot>, number: int): (k: int)
    ensures -1 <= k < |s|
    ensures number < -1 ==> k == -1
  {
    if number == -1 then FirstFree(s, 0)
    else if number >= 0 then FirstNumbered(s, number, 0)
    else -1
  }

  // ---------- The program's variables ----------

  datatype Table = Table(slots: seq<Slot>, sent: int, received: int)

  function ClaimIn(t: Table, now: Time): Table {
    var k := Find(t.slots, -1);
    if k == -1 then t else t.(slots := t.slots[k := Slot(now, t.sent, true)])
  }

  function SettleIn(t: Table, k: nat): Table
    requires k < |t.slots|
  {
    t.(slots := t.slots[k := t.slots[k].(flag := false)], received := ToShort(t.received + 1))
  }

  /** A packet read from the socket: only an echo reply to this process whose number some slot
      carries counts, whatever the flag of that slot. */
  function UnpackIn(t: Table, e: Endian, buf: seq<byte>, len: int, pid: int): (r: (Table, int))
    requires |buf| >= 15 * 4 + HEADER
  {
    var reply := Recognized(e, buf, len, pid);
    var k := if reply.Some? then Find(t.slots, reply.value) else -1;
    if k == -1 then (t, -1) else (SettleIn(t, k), k)
  }

  class Ping {
    const slots: array<Slot>
    var sent: int
    var received: int

    ghost predicate Valid()
      reads this
    {
      slots.Length == SLOTS
    }

    ghost function Contents(): Table
      reads this, slots
    {
      Table(slots[..], sent, received)
    }

    constructor ()
      ensures Valid() && Contents() == Table(seq(128, _ => Slot(Time(0, 0), 0, false)), 0, 0)
    {
      slots := new Slot[SLOTS](_ => UNUSED);
      sent, received := 0, 0;
    }

    method FindPacket(number: int) returns (found: int)
      requires Valid()
      ensures found == Find(slots[..], number)
    {
      found := -1;
      var i := 0;
      if number == -1 {
        while i < SLOTS
          invariant 0 <= i <= SLOTS
          invariant FirstFree(slots[..], 0) == FirstFree(slots[..], i)
        {
          if !slots[i].flag {
            found := i;
            break;
          }
          i := i + 1;
        }
      } else if number >= 0 {
        while i < SLOTS
          invariant 0 <= i <= SLOTS
          invariant FirstNumbered(slots[..], number, 0) == FirstNumbered(slots[..], number, i)
        {
          if slots[i].number == number {
            found := i;
            break;
          }
          i := i + 1;
        }
      }
    }

    /** The sending thread up to the transmission of the request. */
    method Claim(now: Time)
      requires Valid()
      modifies this, slots
      ensures Contents() == ClaimIn(old(Contents()), now)
    {
      var k := FindPacket(-1);
      if k != -1 {
        slots[k] := Slot(now, sent, true);
      }
    }

    /** The sending thread after `sendto` returned `size`. */
    method AfterSend(size: int)
      requires Valid()
      modifies this
      ensures Contents() == if size < 0 then old(Contents()) else old(Contents()).(sent := ToShort(old(sent) + 1))
    {
      if size < 0 {
        return;
      }
      sent := ToShort(sent + 1);
    }

    /** The receiving thread, once it found slot `k` for an echo reply. */
    method Settle(k: nat, now: Time) returns (rtt: int)
      requires Valid() && k < SLOTS
      modifies this, slots
      ensures Contents() == SettleIn(old(Contents()), k)
      ensures rtt == RoundTrip(old(slots[k].begin), now)
    {
      slots[k] := slots[k].(flag := false);
      var interval := TvSub(now, slots[k].begin);
      rtt := ToInt(interval.sec * 1000 + interval.usec / 1000);
      received := ToShort(received + 1);
    }

    method Unpack(e: Endian, buf: seq<byte>, len: int, pid: int, now: Time) returns (status: int, rtt: int)
      requires Valid() && |buf| >= 15 * 4 + HEADER
      modifies this, slots
      ensures
        var (after, k) := UnpackIn(old(Contents()), e, buf, len, pid);
        && Contents() == after && status == (if k == -1 then -1 else 0)
        && (0 <= k < SLOTS ==> rtt == RoundTrip(old(slots[..])[k].begin, now))
    {
      status, rtt := -1, 0;
      var h := buf[0] % 16 * 4;
      var left := len - h;
      if left < 8 {
        return;
      }
      if buf[h] == ICMP_ECHOREPLY && HostWord(e, buf[h + 4], buf[h + 5]) == pid {
        var k := FindPacket(HostWord(e, buf[h + 6], buf[h + 7]));
        if k == -1 {
          return;
        }
        rtt := Settle(k, now);
        status := 0;
      }
    }
  }

  /** Exactly which packets change the table, and how: a reply to this process, with a number in
      the table, clears the flag of the first slot with that number and counts one more. */
  lemma UnpackExactly(t: Table, e: Endian, buf: seq<byte>, len: int, pid: int)
    requires |buf| >= 15 * 4 + HEADER
    ensures
      var h, (after, k) := buf[0] % 16 * 4, UnpackIn(t, e, buf, len, pid);
      var number := HostWord(e, buf[h + 6], buf[h + 7]);
      if len - h >= 8 && buf[h] == 0 && HostWord(e, buf[h + 4], buf[h + 5]) == pid
         && exists i :: 0 <= i < |t.slots| && t.slots[i].number == number
      then
        && 0 <= k < |t.slots| == |after.slots| && t.slots[k].number == number
        && (forall i | 0 <= i < k :: t.slots[i].number != number)
        && (forall i | 0 <= i < |t.slots| && i != k :: after.slots[i] == t.slots[i])
        && after.slots[k] == Slot(t.slots[k].begin, number, false)
        && after.sent == t.sent && (-32768 <= t.received < 32767 ==> after.received == t.received + 1)
      else k == -1 && after == t
  {
    RecognizedExactly(e, buf, len, pid);
  }

  /** The program's own request, read back from the raw socket, changes nothing. */
  lemma OwnRequestChangesNothing(t: Table, e: Endian, buf: seq<byte>, len: int, number: int, pid: int, length: nat)
    requires |buf| >= 15 * 4 + HEADER && length <= 255
    requires
      var h := buf[0] % 16 * 4;
      buf[h..h + 8] == EchoRequest(e, number, pid, length)[..8]
    ensures UnpackIn(t, e, buf, len, pid) == (t, -1)
  {
    OwnRequestIgnored(e, buf, len, number, pid, length, pid);
  }

  /** Nor does a reply to another process. */
  lemma ForeignReplyChangesNothing(t: Table, e: Endian, buf: seq<byte>, len: int, number: int, pid: int,
                                   length: nat, reader: int)
    requires |buf| >= 15 * 4 + HEADER && length <= 255 && reader != pid % 65536
    requires
      var h := buf[0] % 16 * 4;
      buf[h + 4..h + 8] == EchoRequest(e, number, pid, length)[4..8]
    ensures UnpackIn(t, e, buf, len, reader) == (t, -1)
  {
    ForeignReplyIgnored(e, buf, len, pid, number, length, reader);
  }

  // ---------- Times ----------

  predicate Normal(t: Time) {
    0 <= t.usec < 1_000_000
  }

  function Micros(t: Time): int {
    1_000_000 * t.sec + t.usec
  }

  function TvSub(end: Time, begin: Time): Time {
    var tv := Time(end.sec - begin.sec, end.usec - begin.usec);
    if tv.usec < 0 then Time(tv.sec - 1, tv.usec + 1_000_000) else tv
  }

  /** Conversion to a 32-bit `int`. */
  function ToInt(x: int): int {
    (x + 0x8000_0000) % 0x1_0000_0000 - 0x8000_0000
  }

  function RoundTrip(begin: Time, end: Time): int {
    var interval := TvSub(end, begin);
    ToInt(interval.sec * 1000 + interval.usec / 1000)
  }

  /** Subtraction borrows correctly, and the printed time is the true difference in
      microseconds divided by 1000 and rounded down, while that fits an `int`. */
  lemma RoundTripIsFloor(begin: Time, end: Time)
    requires Normal(begin) && Normal(end)
    ensures Normal(TvSub(end, begin)) && Micros(TvSub(end, begin)) == Micros(end) - Micros(begin)
    ensures
      var millis := (Micros(end) - Micros(begin)) / 1000;
      && (RoundTrip(begin, end) == millis <==> -0x8000_0000 <= millis < 0x8000_0000)
      && RoundTrip(begin, end) == ToInt(millis)
  {}

  /** Any other time is off by a multiple of 2^32. */
  lemma ToIntWraps(x: int)
    ensures -0x8000_0000 <= ToInt(x) < 0x8000_0000 && (x - ToInt(x)) % 0x1_0000_0000 == 0
  {}

  /** Division of C, which truncates toward zero. */
  function CDiv(x: int, y: int): int
    requires y != 0
  {
    if x >= 0 then x / y else -(-x / y)
  }

  lemma CDivTruncates(x: int, y: int)
    requires y > 0
    ensures
      var rest := x - CDiv(x, y) * y;
      -y < rest < y && (x >= 0 ==> rest >= 0) && (x <= 0 ==> rest <= 0)
  {
    if x < 0 {
      assert -x == (-x / y) * y + (-x) % y;
      assert CDiv(x, y) * y == -((-x / y) * y);
    }
  }

  /** The loss percentage of the statistics line. */
  function LossPercent(t: Table): int
    requires t.sent != 0
  {
    CDiv((t.sent - t.received) * 100, t.sent)
  }
}
