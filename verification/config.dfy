/**
  The configuration routines: reset, identity check, power mode, channel
  selection, input range and calibration.

  Each register change is a read-modify-write of the 24-bit register: the
  routine reads three bytes, clears the field or fields it owns, ORs in the
  new contents and writes three bytes back. The contracts speak of the word
  the converter delivered (`ReadWord`) and the word it receives
  (`WrittenWord`): the owned fields hold the requested contents and every
  other bit is the one that was read.
 */
module Configuration {
  import opened Bits
  import opened Fields
  import opened RegisterMap
  import opened Codec
  import opened Bus

  // ---- Reset and identity check ----

  const RESET_FRAME: seq<u8> := [0x01, 0xFF, 0xFF, 0xFF, 0xFF, 0xFF, 0xFF]

  /**
    The reset transfer. On the wire it is seven 0 bits followed by 49 1 bits;
    the converter resets after 40 consecutive 1 bits.
   */
  function Reset(): (e: Event)
    ensures e.Write? && e.selector == SLAVE_ID && |e.frame| == 7
    ensures forall j :: 0 <= j < 7 ==> BitAt(e.frame, j) == 0
    ensures forall j :: 7 <= j < 56 ==> BitAt(e.frame, j) == 1
  {
    ResetFrameBits();
    Write(SLAVE_ID, RESET_FRAME)
  }

  lemma ResetFrameBits()
    ensures forall j :: 0 <= j < 7 ==> BitAt(RESET_FRAME, j) == 0
    ensures forall j :: 7 <= j < 56 ==> BitAt(RESET_FRAME, j) == 1
  {
    forall j | 0 <= j < 56
      ensures BitAt(RESET_FRAME, j) == (if j < 7 then 0 else 1)
    {
      var m := 7 - j % 8;
      if j < 8 {
        FirstByteBit(m);
      } else {
        assert RESET_FRAME[j / 8] == 0xFF;
        OnesByteBit(m);
      }
    }
  }

  lemma FirstByteBit(m: nat)
    requires m < 8
    ensures (1 / Pow2(m)) % 2 == (if m == 0 then 1 else 0)
  {
    if m > 0 {
      Pow2Monotone(1, m);
      Pow2Table();
    }
  }

  lemma OnesByteBit(m: nat)
    requires m < 8
    ensures (0xFF / Pow2(m)) % 2 == 1
  {
    Pow2Table();
    if m == 0 {
    } else if m == 1 {
    } else if m == 2 {
    } else if m == 3 {
    } else if m == 4 {
    } else if m == 5 {
    } else if m == 6 {
    } else {
      assert m == 7;
    }
  }

  /**
    Resets the converter, waits a millisecond and reads the identity
    register; the status is 1 exactly when the identity byte is 0xA6.
   */
  function Init(replies: seq<u8>): (r: Run<u8>)
    requires |replies| >= 2
    ensures |r.events| == 3 && r.events[0] == Reset() && r.events[1] == Delay(1)
    ensures r.events[2] == Read(SLAVE_ID, ReadRequest(REG_ID, 1), replies[..2])
    ensures r.value <= 1
    ensures r.value == 1 <==> ReadWord(r.events[2]) == EXPECTED_ID
    ensures r.value == 1 <==> replies[1] == 0xA6
    ensures SelfManaged(r.events) && r.rest == replies[2..]
  {
    var id := GetRegisterValue(REG_ID, 1, 1, replies);
    assert id.value == replies[1] by {
      assert replies[1..2] == [replies[1]];
      assert BigEndian(replies[1..2]) == BigEndian([]) * 256 + replies[1] by {
        assert replies[1..2][..0] == [];
      }
    }
    var events := [Reset(), Delay(1), id.events[0]];
    assert OutsideHold(events[0]) && OutsideHold(events[1]) && OutsideHold(events[2]);
    var status: u8 := if id.value == EXPECTED_ID then 1 else 0;
    Run(status, events, id.rest)
  }

  // ---- Read-modify-write of one field ----

  /** Updating a field of a 24-bit word gives a 24-bit word that differs from it only in that field. */
  lemma RewriteWord(f: Field, w: nat, x: nat)
    requires w < Pow2(24) && f.Top() <= 24
    ensures f.Update(w, x) < Pow2(24) && f.Update(w, x) % Pow256(3) == f.Update(w, x)
    ensures f.Get(f.Update(w, x)) == x % f.Span()
    ensures Untouched([f], w, f.Update(w, x))
  {
    var u := f.Update(w, x);
    assert u < Pow2(24) && u % Pow256(3) == u by {
      UpdateBound(f, w, x, 24);
      ThreeBytes();
      ModOfSmall(u, Pow256(3));
    }
    assert f.Get(u) == x % f.Span() by {
      UpdateGet(f, w, x);
    }
    UpdateUntouched(f, w, x);
  }

  /** `after` holds `x` in field `f`, reduced to the field width, and every other bit of `before`. */
  ghost predicate FieldWritten(f: Field, x: nat, before: nat, after: nat)
  {
    f.Get(after) == x % f.Span() && Untouched([f], before, after)
  }

  /**
    The write that stores word `w` with field `f` replaced by `x`: the
    converter receives `x` in the field and every other bit of `w`.
   */
  function FieldRewrite(addr: u8, f: Field, x: nat, w: nat, modifyCS: u8): (e: Event)
    requires w < 0x100_0000 && f.Top() <= 24
    ensures RegisterWrite(e, addr, SLAVE_ID * modifyCS, 3)
    ensures FieldWritten(f, x, w, WrittenWord(e))
  {
    ThreeBytes();
    RewriteWord(f, w, x);
    SetRegisterValue(addr, f.Update(w, x), 3, modifyCS)
  }

  /**
    A read-modify-write of a three-byte register: the read of `addr` that
    consumes the first four reply bytes, then a write of `addr`, each
    transfer lowering and raising chip select itself.
   */
  ghost predicate ReadModifyWrite(events: seq<Event>, addr: u8, replies: seq<u8>)
  {
    && |replies| >= 4 && |events| == 2
    && events[0] == Read(SLAVE_ID, ReadRequest(addr, 3), replies[..4])
    && RegisterWrite(events[1], addr, SLAVE_ID, 3)
    && SelfManaged(events)
  }

  /** The register read that consumes the first four reply bytes, then the write `e` of the same register. */
  lemma ReadThenWrite(addr: u8, replies: seq<u8>, e: Event)
    requires |replies| >= 4 && RegisterWrite(e, addr, SLAVE_ID, 3)
    ensures var rd := GetRegisterValue(addr, 3, 1, replies);
      && ReadModifyWrite(rd.events + [e], addr, replies)
      && (rd.events + [e])[1] == e && ReadWord((rd.events + [e])[0]) == rd.value
  {
    var events := GetRegisterValue(addr, 3, 1, replies).events + [e];
    assert OutsideHold(events[0]) && OutsideHold(events[1]);
  }

  /**
    Reads three bytes of register `addr`, replaces field `f` with `x` and
    writes the word back, both transfers managing chip select themselves.
   */
  function UpdateRegister(addr: u8, f: Field, x: nat, replies: seq<u8>): (r: Run<()>)
    requires f.Top() <= 24 && |replies| >= 4
    ensures ReadModifyWrite(r.events, addr, replies)
    ensures FieldWritten(f, x, ReadWord(r.events[0]), WrittenWord(r.events[1]))
    ensures r.rest == replies[4..]
  {
    var rd := GetRegisterValue(addr, 3, 1, replies);
    assert rd.value < 0x100_0000 by {
      Pow256Table();
    }
    var e := FieldRewrite(addr, f, x, rd.value, 1);
    ReadThenWrite(addr, replies, e);
    Run((), rd.events + [e], rd.rest)
  }

  // ---- Power mode ----

  /** The operating mode a power setting selects: 0 powers down, 1 idles. */
  function PowerModeCode(pwrMode: u8): nat
  {
    if pwrMode == 0 then MODE_PWRDN
    else if pwrMode == 1 then MODE_IDLE
    else (2 * pwrMode) % 8
  }

  /** `(pwrMode * IDLE) | (!pwrMode * PWRDN)`, before the field macro masks it to three bits. */
  function PowerSelection(pwrMode: u8): nat
  {
    BitOr(pwrMode * MODE_IDLE, (if pwrMode == 0 then 1 else 0) * MODE_PWRDN)
  }

  lemma PowerSelectionCode(pwrMode: u8)
    ensures PowerSelection(pwrMode) % 8 == PowerModeCode(pwrMode)
  {
    if pwrMode == 0 {
      assert PowerSelection(pwrMode) == BitOr(0, 3);
    } else {
      assert PowerSelection(pwrMode) == BitOr(pwrMode * 2, 0);
    }
  }

  /**
    Sets the mode-select field to power down (0) or idle (1); any other
    argument is multiplied into the field and keeps its low bits. Every
    other bit of the mode register is written back as read.
   */
  function SetPower(pwrMode: u8, replies: seq<u8>): (r: Run<()>)
    requires |replies| >= 4
    ensures ReadModifyWrite(r.events, REG_MODE, replies)
    ensures MODE_SEL.Get(WrittenWord(r.events[1])) == PowerModeCode(pwrMode)
    ensures Untouched([MODE_SEL], ReadWord(r.events[0]), WrittenWord(r.events[1]))
    ensures r.rest == replies[4..]
  {
    FieldWeights();
    PowerSelectionCode(pwrMode);
    var r := UpdateRegister(REG_MODE, MODE_SEL, PowerSelection(pwrMode), replies);
    r
  }

  // ---- Channel selection ----

  /** The channel-enable mask `1 << channel` leaves in the 8-bit channel field. */
  function ChannelMask(channel: nat): nat
  {
    if channel < 8 then Pow2(channel) else 0
  }

  lemma ChannelMaskInField(channel: nat)
    ensures Pow2(channel) % 256 == ChannelMask(channel)
  {
    Pow2Table();
    if channel < 8 {
      Pow2Monotone(channel + 1, 8);
    } else {
      Pow2Split(channel, 8);
      assert Pow2(channel) == Pow2(channel - 8) * 256;
    }
  }

  /**
    Enables exactly channel `channel` (0..7) in the configuration register;
    a channel number from 8 to 31 clears the channel field. Every other bit
    is written back as read.
   */
  function ChannelSelect(channel: u16, replies: seq<u8>): (r: Run<()>)
    requires channel < 32 && |replies| >= 4
    ensures ReadModifyWrite(r.events, REG_CONF, replies)
    ensures CONF_CHAN.Get(WrittenWord(r.events[1])) == ChannelMask(channel)
    ensures Untouched([CONF_CHAN], ReadWord(r.events[0]), WrittenWord(r.events[1]))
    ensures r.rest == replies[4..]
  {
    FieldWeights();
    ChannelMaskInField(channel);
    var r := UpdateRegister(REG_CONF, CONF_CHAN, Pow2(channel), replies);
    r
  }

  // ---- Input range ----

  /**
    `(w & ~(UNIPOLAR | GAIN(7) | CHOP)) | polarity * UNIPOLAR | GAIN(range) | chop * CHOP`
   */
  function RangeWord(w: nat, polarity: u8, chop: u8, range: u8): nat
  {
    var cleared := CONF_CHOP.Clear(CONF_GAIN.Clear(CONF_UNIPOLAR.Clear(w)));
    BitOr(BitOr(BitOr(cleared, polarity * CONF_UNIPOLAR_MASK), CONF_GAIN.Place(range)), chop * CONF_CHOP_MASK)
  }

  /** Clearing a field does not make a word larger. */
  lemma ClearBound(f: Field, w: nat)
    ensures f.Clear(w) <= w
  {
    Decompose(f, w);
    MulNonNegative(f.Get(w), f.Unit());
  }

  /** The range word fits the 32-bit variable the driver keeps it in. */
  lemma RangeWordBound(w: nat, polarity: u8, chop: u8, range: u8)
    requires w < Pow2(24)
    ensures RangeWord(w, polarity, chop, range) < TWO_32
  {
    Pow2Table();
    Pow2Monotone(24, 31);
    var c1 := CONF_UNIPOLAR.Clear(w);
    var c2 := CONF_GAIN.Clear(c1);
    var c3 := CONF_CHOP.Clear(c2);
    ClearBound(CONF_UNIPOLAR, w);
    ClearBound(CONF_GAIN, c1);
    ClearBound(CONF_CHOP, c2);
    var r1 := BitOr(c3, polarity * 8);
    BitOrBound(c3, polarity * 8, 31);
    var r2 := BitOr(r1, CONF_GAIN.Place(range));
    BitOrBound(r1, CONF_GAIN.Place(range), 31);
    BitOrBound(r2, chop * 0x80_0000, 31);
    Pow2Monotone(31, 32);
  }

  /** The cleared range word is the three fields updated with 0, and all three read 0. */
  lemma RangeCleared(w: nat)
    ensures var c := CONF_CHOP.Update(CONF_GAIN.Update(CONF_UNIPOLAR.Update(w, 0), 0), 0);
      && CONF_CHOP.Clear(CONF_GAIN.Clear(CONF_UNIPOLAR.Clear(w))) == c
      && CONF_UNIPOLAR.Get(c) == 0 && CONF_GAIN.Get(c) == 0 && CONF_CHOP.Get(c) == 0
  {
    var u, g, h := CONF_UNIPOLAR, CONF_GAIN, CONF_CHOP;
    var c1 := u.Clear(w);
    var c2 := g.Clear(c1);
    ClearIsUpdate(u, w);
    ClearIsUpdate(g, c1);
    ClearIsUpdate(h, c2);
    UpdateTheorem(u, w, 0);
    UpdateTheorem(g, c1, 0);
    UpdateTheorem(h, c2, 0);
    DisjointFieldUnchanged(g, u, c1, 0);
    DisjointFieldUnchanged(h, u, c2, 0);
    DisjointFieldUnchanged(h, g, c2, 0);
  }

  /** OR-ing a placed value into an empty field is the update, and leaves a disjoint field as it was. */
  lemma OrStep(f: Field, w: nat, x: nat, m: nat, other: Field)
    requires f.Get(w) == 0 && m == f.Place(x) && Disjoint(f, other)
    ensures BitOr(w, m) == f.Update(w, x)
    ensures other.Get(BitOr(w, m)) == other.Get(w)
  {
    OrIntoClearField(f, w, x);
    DisjointFieldUnchanged(f, other, w, x);
  }

  /**
    With one-bit polarity and chop arguments the range word is the three
    masked-OR updates in a row.
   */
  lemma RangeWordIsUpdates(w: nat, polarity: u8, chop: u8, range: u8)
    requires polarity <= 1 && chop <= 1
    ensures var c := CONF_CHOP.Update(CONF_GAIN.Update(CONF_UNIPOLAR.Update(w, 0), 0), 0);
      RangeWord(w, polarity, chop, range)
      == CONF_CHOP.Update(CONF_GAIN.Update(CONF_UNIPOLAR.Update(c, polarity), range), chop)
  {
    var u, g, h := CONF_UNIPOLAR, CONF_GAIN, CONF_CHOP;
    FieldWeights();
    assert u.Place(polarity) == polarity * CONF_UNIPOLAR_MASK by {
      Pow2Table();
    }
    assert h.Place(chop) == chop * CONF_CHOP_MASK by {
      Pow2Table();
    }
    RangeCleared(w);
    var c := h.Update(g.Update(u.Update(w, 0), 0), 0);
    OrStep(u, c, polarity, polarity * CONF_UNIPOLAR_MASK, g);
    OrStep(u, c, polarity, polarity * CONF_UNIPOLAR_MASK, h);
    var r1 := u.Update(c, polarity);
    OrStep(g, r1, range, g.Place(range), h);
    var r2 := g.Update(r1, range);
    OrStep(h, r2, chop, chop * CONF_CHOP_MASK, u);
  }

  /**
    With one-bit polarity and chop arguments, the range word of a 24-bit
    word is a 24-bit word holding the requested polarity, gain and chop bits
    and every other bit of the old word.
   */
  lemma RangeWordFields(w: nat, polarity: u8, chop: u8, range: u8)
    requires w < Pow2(24) && polarity <= 1 && chop <= 1
    ensures var r := RangeWord(w, polarity, chop, range);
      && r < Pow2(24)
      && CONF_UNIPOLAR.Get(r) == polarity && CONF_GAIN.Get(r) == range % 8 && CONF_CHOP.Get(r) == chop
      && Untouched([CONF_UNIPOLAR, CONF_GAIN, CONF_CHOP], w, r)
  {
    RangeWordIsUpdates(w, polarity, chop, range);
    var c := CONF_CHOP.Update(CONF_GAIN.Update(CONF_UNIPOLAR.Update(w, 0), 0), 0);
    RangeClearBound(w);
    var r1 := CONF_UNIPOLAR.Update(c, polarity);
    var r2 := CONF_GAIN.Update(r1, range);
    RangeSetBits(c, r1, r2, polarity, chop, range);
    RangeUntouched(w, c, r1, r2, polarity, chop, range);
  }

  /** Setting the three fields in turn leaves each holding its value and the word in 24 bits. */
  lemma RangeSetBits(c: nat, r1: nat, r2: nat, polarity: nat, chop: nat, range: nat)
    requires c < Pow2(24) && polarity <= 1 && chop <= 1
    requires r1 == CONF_UNIPOLAR.Update(c, polarity) && r2 == CONF_GAIN.Update(r1, range)
    ensures var r := CONF_CHOP.Update(r2, chop);
      && r < Pow2(24)
      && CONF_UNIPOLAR.Get(r) == polarity && CONF_GAIN.Get(r) == range % 8 && CONF_CHOP.Get(r) == chop
  {
    var u, g, h := CONF_UNIPOLAR, CONF_GAIN, CONF_CHOP;
    var r := h.Update(r2, chop);
    assert r < Pow2(24) by {
      UpdateBound(u, c, polarity, 24);
      UpdateBound(g, r1, range, 24);
      UpdateBound(h, r2, chop, 24);
    }
    assert u.Span() == 2 && g.Span() == 8 && h.Span() == 2 by {
      Pow2Table();
    }
    UpdateThree(u, g, h, c, polarity, range, chop);
    ModOfSmall(polarity, u.Span());
    ModOfSmall(chop, h.Span());
  }

  lemma RangeClearBound(w: nat)
    requires w < Pow2(24)
    ensures CONF_CHOP.Update(CONF_GAIN.Update(CONF_UNIPOLAR.Update(w, 0), 0), 0) < Pow2(24)
  {
    var c1 := CONF_UNIPOLAR.Update(w, 0);
    UpdateBound(CONF_UNIPOLAR, w, 0, 24);
    UpdateBound(CONF_GAIN, c1, 0, 24);
    UpdateBound(CONF_CHOP, CONF_GAIN.Update(c1, 0), 0, 24);
  }

  /** The six updates behind the range word change no bit outside the three fields. */
  lemma RangeUntouched(w: nat, c: nat, r1: nat, r2: nat, polarity: nat, chop: nat, range: nat)
    requires c == CONF_CHOP.Update(CONF_GAIN.Update(CONF_UNIPOLAR.Update(w, 0), 0), 0)
    requires r1 == CONF_UNIPOLAR.Update(c, polarity) && r2 == CONF_GAIN.Update(r1, range)
    ensures Untouched([CONF_UNIPOLAR, CONF_GAIN, CONF_CHOP], w, CONF_CHOP.Update(r2, chop))
  {
    var u, g, h := CONF_UNIPOLAR, CONF_GAIN, CONF_CHOP;
    var changed := [u, g, h];
    var c1 := u.Update(w, 0);
    var c2 := g.Update(c1, 0);
    UpdateUntouched(u, w, 0);
    UpdateUntouched(g, c1, 0);
    UpdateUntouched(h, c2, 0);
    UpdateUntouched(u, c, polarity);
    UpdateUntouched(g, r1, range);
    UpdateUntouched(h, r2, chop);
    UntouchedWiden(u, changed, w, c1);
    UntouchedWiden(g, changed, c1, c2);
    UntouchedWiden(h, changed, c2, c);
    UntouchedWiden(u, changed, c, r1);
    UntouchedWiden(g, changed, r1, r2);
    UntouchedWiden(h, changed, r2, h.Update(r2, chop));
    UntouchedTrans(changed, w, c1, c2);
    UntouchedTrans(changed, w, c2, c);
    UntouchedTrans(changed, w, c, r1);
    UntouchedTrans(changed, w, r1, r2);
    UntouchedTrans(changed, w, r2, h.Update(r2, chop));
  }

  /**
    `after` holds the requested polarity, gain and chop bits and every
    other bit of `before`.
   */
  ghost predicate RangeWritten(before: nat, after: nat, polarity: nat, chop: nat, range: nat)
  {
    && CONF_UNIPOLAR.Get(after) == polarity && CONF_GAIN.Get(after) == range % 8
    && CONF_CHOP.Get(after) == chop
    && Untouched([CONF_UNIPOLAR, CONF_GAIN, CONF_CHOP], before, after)
  }

  /**
    The write that stores the range word of a 24-bit register word: the
    converter receives the requested bits and every other bit of `w`.
   */
  function RangeRewrite(w: nat, polarity: u8, chop: u8, range: u8): (e: Event)
    requires w < 0x100_0000
    ensures RegisterWrite(e, REG_CONF, SLAVE_ID, 3)
    ensures polarity <= 1 && chop <= 1 ==> RangeWritten(w, WrittenWord(e), polarity, chop, range)
  {
    ThreeBytes();
    RangeWordBound(w, polarity, chop, range);
    var word := RangeWord(w, polarity, chop, range);
    var e := SetRegisterValue(REG_CONF, word, 3, 1);
    assert polarity <= 1 && chop <= 1 ==> WrittenWord(e) == word by {
      if polarity <= 1 && chop <= 1 {
        RangeWordFields(w, polarity, chop, range);
        ThreeBytes();
        ModOfSmall(word, Pow256(3));
      }
    }
    RangeFieldsImply(w, polarity, chop, range);
    e
  }

  lemma RangeFieldsImply(w: nat, polarity: u8, chop: u8, range: u8)
    requires w < Pow2(24)
    ensures polarity <= 1 && chop <= 1 ==> RangeWritten(w, RangeWord(w, polarity, chop, range), polarity, chop, range)
  {
    if polarity <= 1 && chop <= 1 {
      RangeWordFields(w, polarity, chop, range);
    }
  }

  /**
    Sets the polarity, chop and gain bits of the configuration register.
    For polarity and chop of 0 or 1 the written word holds exactly the
    requested bits and every other bit as read.
   */
  function RangeSetup(polarity: u8, chop: u8, range: u8, replies: seq<u8>): (r: Run<()>)
    requires |replies| >= 4
    ensures ReadModifyWrite(r.events, REG_CONF, replies)
    ensures polarity <= 1 && chop <= 1 ==>
      RangeWritten(ReadWord(r.events[0]), WrittenWord(r.events[1]), polarity, chop, range)
    ensures r.rest == replies[4..]
  {
    var rd := GetRegisterValue(REG_CONF, 3, 1, replies);
    assert rd.value < 0x100_0000 by {
      Pow256Table();
    }
    var e := RangeRewrite(rd.value, polarity, chop, range);
    ReadThenWrite(REG_CONF, replies, e);
    Run((), rd.events + [e], rd.rest)
  }

  // ---- Calibration ----

  /**
    The calibration proper: read the mode register, then with chip select
    held low write it back with `mode` in the mode-select field and wait for
    the converter.
   */
  function CalibrationCycle(mode: u8, replies: seq<u8>): (r: Run<()>)
    requires |replies| >= 4
    ensures |r.events| == 5 && r.events[0] == Read(SLAVE_ID, ReadRequest(REG_MODE, 3), replies[..4])
    ensures r.events[1] == CsLow && RegisterWrite(r.events[2], REG_MODE, 0, 3)
    ensures r.events[3] == WaitReady && r.events[4] == CsHigh
    ensures FieldWritten(MODE_SEL, mode, ReadWord(r.events[0]), WrittenWord(r.events[2]))
    ensures r.rest == replies[4..]
  {
    var rd := GetRegisterValue(REG_MODE, 3, 1, replies);
    assert rd.value < 0x100_0000 && MODE_SEL.Top() <= 24 by {
      Pow256Table();
      FieldWeights();
    }
    Run((), rd.events + [CsLow, FieldRewrite(REG_MODE, MODE_SEL, mode, rd.value, 0), WaitReady, CsHigh], rd.rest)
  }

  /**
    Selects `channel`, then writes `mode` into the mode-select field with
    chip select held low and waits for the converter to finish.
   */
  function Calibrate(mode: u8, channel: u8, replies: seq<u8>): (r: Run<()>)
    requires channel < 32 && |replies| >= 8
    ensures |r.events| == 7 && r.events[..2] == ChannelSelect(channel, replies).events
    ensures r.events[2..] == CalibrationCycle(mode, replies[4..]).events && r.rest == replies[8..]
  {
    var cs := ChannelSelect(channel, replies);
    var cal := CalibrationCycle(mode, cs.rest);
    Concatenation(cs.events, cal.events);
    Run((), cs.events + cal.events, cal.rest)
  }

  /**
    The calibration reads the mode register after selecting the channel and
    writes back the same word with only the mode-select field replaced.
   */
  lemma CalibrateWritesMode(mode: u8, channel: u8, replies: seq<u8>)
    requires channel < 32 && |replies| >= 8
    ensures var e := Calibrate(mode, channel, replies).events;
      && e[2] == Read(SLAVE_ID, ReadRequest(REG_MODE, 3), replies[4..8])
      && e[3] == CsLow && e[5] == WaitReady && e[6] == CsHigh
      && RegisterWrite(e[4], REG_MODE, 0, 3)
      && MODE_SEL.Get(WrittenWord(e[4])) == mode % 8
      && Untouched([MODE_SEL], ReadWord(e[2]), WrittenWord(e[4]))
  {
    var e := Calibrate(mode, channel, replies).events;
    var cal := CalibrationCycle(mode, replies[4..]);
    assert replies[4..][..4] == replies[4..8];
    FieldWeights();
    assert e[2] == cal.events[0] && e[3] == cal.events[1] && e[4] == cal.events[2] by {
      assert e[2..] == cal.events;
    }
    assert e[5] == cal.events[3] && e[6] == cal.events[4] by {
      assert e[2..] == cal.events;
    }
  }

  // ---- Chip-select discipline of each routine ----

  /** Reset, delay and identity read leave chip select released. */
  lemma InitBalanced(replies: seq<u8>)
    requires |replies| >= 2
    ensures CsBalanced(Init(replies).events)
  {
    SelfManagedIsBalanced(Init(replies).events);
  }

  lemma SetPowerBalanced(pwrMode: u8, replies: seq<u8>)
    requires |replies| >= 4
    ensures CsBalanced(SetPower(pwrMode, replies).events)
  {
    SelfManagedIsBalanced(SetPower(pwrMode, replies).events);
  }

  lemma ChannelSelectBalanced(channel: u16, replies: seq<u8>)
    requires channel < 32 && |replies| >= 4
    ensures CsBalanced(ChannelSelect(channel, replies).events)
  {
    SelfManagedIsBalanced(ChannelSelect(channel, replies).events);
  }

  lemma RangeSetupBalanced(polarity: u8, chop: u8, range: u8, replies: seq<u8>)
    requires |replies| >= 4
    ensures CsBalanced(RangeSetup(polarity, chop, range, replies).events)
  {
    SelfManagedIsBalanced(RangeSetup(polarity, chop, range, replies).events);
  }

  /** The calibration cycle's read manages chip select itself; the rest runs between one lowering and one raising. */
  lemma CalibrationCycleBracketed(mode: u8, replies: seq<u8>)
    requires |replies| >= 4
    ensures var events := CalibrationCycle(mode, replies).events;
      SelfManaged(events[..1]) && Bracketed(events[1..])
  {
    var events := CalibrationCycle(mode, replies).events;
    var held := events[1..];
    assert held[0] == CsLow && held[3] == CsHigh;
    assert InsideHold(held[1]) && InsideHold(held[2]);
  }

  /** The calibration holds chip select low from its own lowering to its own raising, and releases it. */
  lemma CalibrateBalanced(mode: u8, channel: u8, replies: seq<u8>)
    requires channel < 32 && |replies| >= 8
    ensures var events := Calibrate(mode, channel, replies).events;
      SelfManaged(events[..3]) && Bracketed(events[3..]) && CsBalanced(events)
  {
    var events := Calibrate(mode, channel, replies).events;
    var cs := ChannelSelect(channel, replies).events;
    var cal := CalibrationCycle(mode, replies[4..]).events;
    CalibrationCycleBracketed(mode, replies[4..]);
    assert events[..3] == cs + cal[..1] && events[3..] == cal[1..] by {
      assert events == cs + cal;
    }
    SelfManagedAppend(cs, cal[..1]);
    assert events == events[..3] + events[3..];
    ManagedThenBracketed(events[..3], events[3..]);
  }

}
