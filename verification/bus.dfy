/**
  The serial bus as the driver sees it.

  The driver's only effects are bus transfers, chip-select changes, waits
  for the ready line and delays. A routine is modelled as a function from
  the bytes the converter will answer with to the value the routine returns
  and the trace of `Event`s it produces (`Run`). A read of `n` register
  bytes consumes `n + 1` reply bytes, the first of which is clocked in
  while the command goes out and is ignored.

  Chip select: a transfer with selector `SLAVE_ID` lowers and raises chip
  select around itself; a transfer with selector 0 leaves it alone, so the
  caller must hold it low. `Replay` runs a trace through that discipline
  and `CsBalanced` says the trace starts and ends with chip select released
  and never breaks the discipline in between.
 */
module Bus {
  import opened Bits
  import opened Fields
  import opened RegisterMap
  import opened Codec

  datatype Event =
    | CsLow
    | CsHigh
    | Write(selector: nat, frame: seq<u8>)
    | Read(selector: nat, request: seq<u8>, reply: seq<u8>)
    | WaitReady
    | Delay(ms: nat)
    | Tick(count: u64)

  /** What a routine returns, the events it produced and the reply bytes it left unread. */
  datatype Run<T> = Run(value: T, events: seq<Event>, rest: seq<u8>)

  /** The value a write transfer stores, as the converter decodes it. */
  function WrittenWord(e: Event): nat
    requires e.Write? && |e.frame| >= 1
  {
    BigEndian(e.frame[1..])
  }

  /** A write of `n` bytes to register `addr` through `selector`. */
  predicate RegisterWrite(e: Event, addr: u8, selector: nat, n: nat)
  {
    e.Write? && e.selector == selector && |e.frame| == n + 1 && e.frame[0] == WriteCommand(addr)
  }

  /** The value a read transfer delivered, as the converter encoded it. */
  function ReadWord(e: Event): nat
    requires e.Read? && |e.reply| >= 1
  {
    BigEndian(e.reply[1..])
  }

  /** Writes the low `n` bytes of `v` to register `addr`. */
  function SetRegisterValue(addr: u8, v: u32, n: nat, modifyCS: u8): (e: Event)
    requires n <= 4
    ensures RegisterWrite(e, addr, SLAVE_ID * modifyCS, n)
    ensures COMM_ADDR.Get(e.frame[0]) == addr % 8 && e.frame[0] / 0x40 == 0
    ensures WrittenWord(e) == v % Pow256(n)
  {
    Write(SLAVE_ID * modifyCS, WriteFrame(addr, v, n))
  }

  /** Reads `n` bytes of register `addr` from the front of `replies`. */
  function GetRegisterValue(addr: u8, n: nat, modifyCS: u8, replies: seq<u8>): (r: Run<nat>)
    requires n <= 4 && |replies| >= n + 1
    ensures r.events == [Read(SLAVE_ID * modifyCS, ReadRequest(addr, n), replies[..n + 1])]
    ensures r.value < Pow256(n) && r.value == ReadWord(r.events[0])
    ensures BigEndianBytes(r.value, n) == replies[1..n + 1]
    ensures r.rest == replies[n + 1..]
  {
    var reply := replies[..n + 1];
    assert reply[1..] == replies[1..n + 1];
    EncodeDecode(replies[1..n + 1]);
    Run(BigEndian(replies[1..n + 1]), [Read(SLAVE_ID * modifyCS, ReadRequest(addr, n), reply)], replies[n + 1..])
  }

  /** A register that answers with the bytes last written to it reads back the written value. */
  lemma WriteThenRead(addr: u8, v: u32, n: nat, writeCS: u8, readCS: u8, replies: seq<u8>)
    requires n <= 4 && |replies| >= n + 1
    requires replies[1..n + 1] == SetRegisterValue(addr, v, n, writeCS).frame[1..]
    ensures GetRegisterValue(addr, n, readCS, replies).value == v % Pow256(n)
  {
    var e := SetRegisterValue(addr, v, n, writeCS);
    assert BigEndian(replies[1..n + 1]) == WrittenWord(e);
  }

  /** The two halves of a concatenated trace can be sliced back out. */
  lemma Concatenation(a: seq<Event>, b: seq<Event>)
    ensures (a + b)[..|a|] == a && (a + b)[|a|..] == b
  {
  }

  // ---- Chip-select discipline ----

  datatype CsState = Released | Held | Fault

  /** One event under the chip-select discipline. */
  function Step(s: CsState, e: Event): CsState
  {
    if s == Fault then Fault
    else match e
      case CsLow => if s == Released then Held else Fault
      case CsHigh => if s == Held then Released else Fault
      case Write(selector, _) => if (selector == 0) == (s == Held) then s else Fault
      case Read(selector, _, _) => if (selector == 0) == (s == Held) then s else Fault
      case WaitReady => if s == Held then s else Fault
      case Delay(_) => s
      case Tick(_) => s
  }

  function Replay(s: CsState, events: seq<Event>): CsState
    decreases |events|
  {
    if |events| == 0 then s else Replay(Step(s, events[0]), events[1..])
  }

  /** Chip select is released before and after the trace and the discipline holds throughout. */
  predicate CsBalanced(events: seq<Event>)
  {
    Replay(Released, events) == Released
  }

  /** An event that may occur while chip select is held low. */
  predicate InsideHold(e: Event)
  {
    match e
    case CsLow => false
    case CsHigh => false
    case Write(selector, _) => selector == 0
    case Read(selector, _, _) => selector == 0
    case _ => true
  }

  /** An event that may occur while chip select is released. */
  predicate OutsideHold(e: Event)
  {
    match e
    case Write(selector, _) => selector != 0
    case Read(selector, _, _) => selector != 0
    case Delay(_) => true
    case Tick(_) => true
    case _ => false
  }

  /** Events that each manage chip select themselves. */
  predicate SelfManaged(events: seq<Event>)
  {
    forall k :: 0 <= k < |events| ==> OutsideHold(events[k])
  }

  /** One chip-select-low, events run with chip select held, one chip-select-high. */
  predicate Bracketed(events: seq<Event>)
  {
    && |events| >= 2 && events[0] == CsLow && events[|events| - 1] == CsHigh
    && forall k :: 0 < k < |events| - 1 ==> InsideHold(events[k])
  }

  lemma {:induction false} ReplayAppend(s: CsState, a: seq<Event>, b: seq<Event>)
    ensures Replay(s, a + b) == Replay(Replay(s, a), b)
    decreases |a|
  {
    if |a| == 0 {
      assert a + b == b;
    } else {
      assert (a + b)[0] == a[0];
      assert (a + b)[1..] == a[1..] + b;
      ReplayAppend(Step(s, a[0]), a[1..], b);
    }
  }

  lemma {:induction false} ReplaySelfManaged(events: seq<Event>)
    requires SelfManaged(events)
    ensures Replay(Released, events) == Released
    decreases |events|
  {
    if |events| > 0 {
      assert SelfManaged(events[1..]) by {
        forall k | 0 <= k < |events| - 1
          ensures OutsideHold(events[1..][k])
        {
          assert events[1..][k] == events[k + 1];
        }
      }
      ReplaySelfManaged(events[1..]);
    }
  }

  lemma {:induction false} ReplayHeld(events: seq<Event>)
    requires forall k :: 0 <= k < |events| ==> InsideHold(events[k])
    ensures Replay(Held, events) == Held
    decreases |events|
  {
    if |events| > 0 {
      assert forall k :: 0 <= k < |events| - 1 ==> InsideHold(events[1..][k]) by {
        forall k | 0 <= k < |events| - 1
          ensures InsideHold(events[1..][k])
        {
          assert events[1..][k] == events[k + 1];
        }
      }
      ReplayHeld(events[1..]);
    }
  }

  /** A bracketed sequence keeps the chip-select discipline. */
  lemma BracketedIsBalanced(events: seq<Event>)
    requires Bracketed(events)
    ensures CsBalanced(events)
  {
    var n := |events|;
    var mid := events[1..n - 1];
    assert events == [CsLow] + mid + [CsHigh];
    ReplayAppend(Released, [CsLow] + mid, [CsHigh]);
    ReplayAppend(Released, [CsLow], mid);
    assert forall k :: 0 <= k < |mid| ==> InsideHold(mid[k]) by {
      forall k | 0 <= k < |mid|
        ensures InsideHold(mid[k])
      {
        assert mid[k] == events[k + 1];
      }
    }
    ReplayHeld(mid);
  }

  /** Balanced traces compose. */
  lemma BalancedAppend(a: seq<Event>, b: seq<Event>)
    requires CsBalanced(a) && CsBalanced(b)
    ensures CsBalanced(a + b)
  {
    ReplayAppend(Released, a, b);
  }

  /** Self-managed transfers keep the chip-select discipline. */
  lemma SelfManagedIsBalanced(events: seq<Event>)
    requires SelfManaged(events)
    ensures CsBalanced(events)
  {
    ReplaySelfManaged(events);
  }

  lemma SelfManagedAppend(a: seq<Event>, b: seq<Event>)
    requires SelfManaged(a) && SelfManaged(b)
    ensures SelfManaged(a + b)
  {
    assert forall k :: 0 <= k < |a + b| ==> (a + b)[k] == if k < |a| then a[k] else b[k - |a|];
  }

  /** Self-managed transfers followed by a bracketed sequence keep the chip-select discipline. */
  lemma ManagedThenBracketed(a: seq<Event>, b: seq<Event>)
    requires SelfManaged(a) && Bracketed(b)
    ensures CsBalanced(a + b)
  {
    SelfManagedIsBalanced(a);
    BracketedIsBalanced(b);
    BalancedAppend(a, b);
  }

  /** Events that may all run with chip select held, wrapped in one lowering and one raising. */
  lemma Bracket(mid: seq<Event>)
    requires forall k :: 0 <= k < |mid| ==> InsideHold(mid[k])
    ensures Bracketed([CsLow] + mid + [CsHigh])
  {
    var events := [CsLow] + mid + [CsHigh];
    forall k | 0 < k < |events| - 1
      ensures InsideHold(events[k])
    {
      assert events[k] == mid[k - 1];
    }
  }
}
