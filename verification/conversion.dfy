/**
  The conversion routines: waiting for the ready line, single and
  continuous conversions, the averaged and the packed continuous reads, the
  time-stamped read and the temperature reading.

  Every conversion routine lowers chip select itself, writes the mode
  register with a freshly built mode word (not a read-modify-write), reads
  the 24-bit data register as often as it needs with chip select held and
  raises chip select at the end. A wait for the ready line appears in a
  trace as `WaitReady`; `WaitRdyGoLow` models the wait itself.
 */
module Conversion {
  import opened Bits
  import opened Fields
  import opened RegisterMap
  import opened Codec
  import opened Bus
  import opened Packing
  import opened Configuration

  // ---- Waiting for the ready line ----

  /** The polls the wait makes at most: the counter starts at 0xFFFFF and is compared with zero before it is decremented. */
  const POLL_LIMIT: nat := 0x10_0000

  /**
    Polls the ready line until it is low or the counter runs out.
    `busy(i)` is the level of the line at poll `i` (true while a conversion
    is in progress). The line is read first and the counter only while the
    line is high, so the wait makes at least one and at most `POLL_LIMIT`
    polls: every poll but the last saw the line high, and the last saw it
    low unless the budget was used up.
   */
  method WaitRdyGoLow(busy: nat -> bool) returns (polls: nat)
    ensures 1 <= polls <= POLL_LIMIT
    ensures forall i :: 0 <= i < polls - 1 ==> busy(i)
    ensures !busy(polls - 1) || polls == POLL_LIMIT
  {
    var timeOutCnt: u32 := 0xF_FFFF;
    polls := 0;
    while true
      invariant polls + timeOutCnt == 0xF_FFFF
      invariant forall i :: 0 <= i < polls ==> busy(i)
      decreases timeOutCnt
    {
      var level := busy(polls);
      polls := polls + 1;
      if !level {
        return;
      }
      if timeOutCnt == 0 {
        return;
      }
      timeOutCnt := timeOutCnt - 1;
    }
  }

  // ---- Mode words ----

  /** `MODE_SEL(mode) | (CLK_EXT_MCLK2 << 18) | MODE_RATE(rate)`: the mode word of the conversion routines. */
  function ModeCommand(mode: nat, rate: nat): nat
  {
    BitOr(BitOr(MODE_SEL.Place(mode), CLK_EXT_MCLK2 * 0x4_0000), MODE_RATE.Place(rate))
  }

  /** The fields a mode word of the conversion routines sets. */
  const COMMAND_FIELDS: seq<Field> := [MODE_SEL, MODE_CLKSRC, MODE_RATE]

  /**
    The word holds `mode` in the mode-select field, the external clock on
    MCLK2 and `rate` in the filter-rate field, and every other bit is zero.
   */
  ghost predicate ModeWordHolds(word: nat, mode: nat, rate: nat)
  {
    && MODE_SEL.Get(word) == mode % 8 && MODE_CLKSRC.Get(word) == CLK_EXT_MCLK2 && MODE_RATE.Get(word) == rate % 0x400
    && Untouched(COMMAND_FIELDS, 0, word)
  }

  /**
    A word built from zero by OR-ing values into three pairwise disjoint
    fields holds each value and has no bit set outside the three fields.
   */
  lemma BuildThree(s: Field, k: Field, t: Field, a: nat, b: nat, c: nat)
    requires Disjoint(s, k) && Disjoint(s, t) && Disjoint(k, t)
    requires s.Top() <= 24 && k.Top() <= 24 && t.Top() <= 24
    ensures var w := BitOr(BitOr(s.Place(a), k.Place(b)), t.Place(c));
      && w == s.Place(a) + k.Place(b) + t.Place(c) && w < Pow2(24)
      && s.Get(w) == a % s.Span() && k.Get(w) == b % k.Span() && t.Get(w) == c % t.Span()
      && Untouched([s, k, t], 0, w)
  {
    var w1 := s.Update(0, a);
    assert s.Place(a) == w1 && s.Get(w1) == a % s.Span() && Untouched([s], 0, w1) by {
      assert BitOr(0, s.Place(a)) == s.Place(a);
      assert Untouched([], 0, 0);
      OrIntoFreshField([], s, 0, a);
      assert [] + [s] == [s];
    }
    var w2 := k.Update(w1, b);
    assert BitOr(w1, k.Place(b)) == w2 == w1 + k.Place(b) && k.Get(w2) == b % k.Span() && s.Get(w2) == s.Get(w1) && Untouched([s, k], 0, w2) by {
      OrIntoFreshField([s], k, w1, b);
      assert [s][0] == s;
      assert [s] + [k] == [s, k];
    }
    var w3 := t.Update(w2, c);
    assert BitOr(w2, t.Place(c)) == w3 == w2 + t.Place(c) && t.Get(w3) == c % t.Span() && s.Get(w3) == s.Get(w2) && k.Get(w3) == k.Get(w2) by {
      OrIntoFreshField([s, k], t, w2, c);
      assert [s, k][0] == s && [s, k][1] == k;
    }
    assert Untouched([s, k, t], 0, w3) by {
      OrIntoFreshField([s, k], t, w2, c);
      assert [s, k] + [t] == [s, k, t];
    }
    assert w3 < Pow2(24) by {
      assert 0 < Pow2(24);
      UpdateBound(s, 0, a, 24);
      UpdateBound(k, w1, b, 24);
      UpdateBound(t, w2, c, 24);
    }
  }

  /** The mode word is a 24-bit word holding the mode, the clock source and the rate and nothing else. */
  lemma ModeCommandFields(mode: nat, rate: nat)
    ensures ModeCommand(mode, rate) == (mode % 8) * 0x20_0000 + CLK_EXT_MCLK2 * 0x4_0000 + rate % 0x400
    ensures ModeCommand(mode, rate) < 0x100_0000
    ensures ModeWordHolds(ModeCommand(mode, rate), mode, rate)
  {
    FieldWeights();
    assert MODE_CLKSRC.Place(CLK_EXT_MCLK2) == CLK_EXT_MCLK2 * 0x4_0000;
    BuildThree(MODE_SEL, MODE_CLKSRC, MODE_RATE, mode, CLK_EXT_MCLK2, rate);
  }

  /** `if (on) word |= FLAG;` for the one-bit field `f` whose mask is `FLAG`. */
  function SetFlag(w: nat, f: Field, on: bool): nat
  {
    if on then BitOr(w, f.Place(1)) else w
  }

  /** Setting a one-bit flag that is clear adds its weight when asked for and changes nothing else. */
  lemma FlagStep(f: Field, w: nat, on: bool)
    requires f.width == 1 && f.Get(w) == 0
    ensures SetFlag(w, f, on) == w + (if on then f.Unit() else 0)
    ensures f.Get(SetFlag(w, f, on)) == if on then 1 else 0
    ensures Untouched([f], w, SetFlag(w, f, on))
  {
    assert f.Span() == 2;
    if on {
      OrIntoClearField(f, w, 1);
      UpdateEmptyField(f, w, 1);
      UpdateGet(f, w, 1);
      UpdateUntouched(f, w, 1);
    }
  }

  /**
    Three clear one-bit flags set in turn: each reads whether it was asked
    for, the word grows by the weights of those set, and nothing outside
    the three flags changes.
   */
  lemma ThreeFlags(p: Field, q: Field, r: Field, w: nat, on1: bool, on2: bool, on3: bool)
    requires Disjoint(p, q) && Disjoint(p, r) && Disjoint(q, r)
    requires p.width == 1 && q.width == 1 && r.width == 1
    requires p.Get(w) == 0 && q.Get(w) == 0 && r.Get(w) == 0
    ensures var x := SetFlag(SetFlag(SetFlag(w, p, on1), q, on2), r, on3);
      && x == w + (if on1 then p.Unit() else 0) + (if on2 then q.Unit() else 0) + (if on3 then r.Unit() else 0)
      && p.Get(x) == (if on1 then 1 else 0) && q.Get(x) == (if on2 then 1 else 0) && r.Get(x) == (if on3 then 1 else 0)
      && Untouched([p, q, r], w, x)
  {
    var x1 := SetFlag(w, p, on1);
    FlagStep(p, w, on1);
    assert q.Get(x1) == 0 && r.Get(x1) == 0 by {
      assert forall i :: 0 <= i < 1 ==> Disjoint([p][i], q);
      assert forall i :: 0 <= i < 1 ==> Disjoint([p][i], r);
    }
    var x2 := SetFlag(x1, q, on2);
    FlagStep(q, x1, on2);
    assert p.Get(x2) == p.Get(x1) && r.Get(x2) == 0 by {
      assert forall i :: 0 <= i < 1 ==> Disjoint([q][i], p);
      assert forall i :: 0 <= i < 1 ==> Disjoint([q][i], r);
    }
    var x3 := SetFlag(x2, r, on3);
    FlagStep(r, x2, on3);
    assert p.Get(x3) == p.Get(x2) && q.Get(x3) == q.Get(x2) by {
      assert forall i :: 0 <= i < 1 ==> Disjoint([r][i], p);
      assert forall i :: 0 <= i < 1 ==> Disjoint([r][i], q);
    }
    var flags := [p, q, r];
    assert p in flags && q in flags && r in flags;
    UntouchedWiden(p, flags, w, x1);
    UntouchedWiden(q, flags, x1, x2);
    UntouchedWiden(r, flags, x2, x3);
    UntouchedTrans(flags, w, x1, x2);
    UntouchedTrans(flags, w, x2, x3);
  }

  /** The mode word of `ContinuousConvStart`: continuous mode, the clock, the rate and the three optional flags. */
  function StartCommand(rate: u32, sinc3: u8, rej60: u8, noDelay: u8): nat
  {
    var c := ModeCommand(MODE_CONT, rate);
    SetFlag(SetFlag(SetFlag(c, MODE_SINC3, sinc3 != 0), MODE_REJ60, rej60 != 0), MODE_SCYCLE, noDelay != 0)
  }

  /** The fields `ContinuousConvStart` sets. */
  const START_FIELDS: seq<Field> := COMMAND_FIELDS + [MODE_SINC3, MODE_REJ60, MODE_SCYCLE]

  /**
    The word holds continuous mode, the external clock and `rate`, each of
    the sinc3, 60 Hz rejection and single-cycle flags exactly when asked
    for, and every other bit is zero.
   */
  ghost predicate StartWordHolds(word: nat, rate: nat, sinc3: bool, rej60: bool, noDelay: bool)
  {
    && MODE_SEL.Get(word) == MODE_CONT && MODE_CLKSRC.Get(word) == CLK_EXT_MCLK2 && MODE_RATE.Get(word) == rate % 0x400
    && MODE_SINC3.Get(word) == (if sinc3 then 1 else 0)
    && MODE_REJ60.Get(word) == (if rej60 then 1 else 0)
    && MODE_SCYCLE.Get(word) == (if noDelay then 1 else 0)
    && Untouched(START_FIELDS, 0, word)
  }

  /**
    Three clear flags set on a word built from zero in three other fields:
    the three fields keep their values and no bit outside the six fields is
    set.
   */
  lemma FlagsOnWord(s: Field, k: Field, t: Field, p: Field, q: Field, r: Field, c: nat, on1: bool, on2: bool, on3: bool)
    requires Disjoint(p, q) && Disjoint(p, r) && Disjoint(q, r)
    requires Disjoint(s, p) && Disjoint(k, p) && Disjoint(t, p)
    requires Disjoint(s, q) && Disjoint(k, q) && Disjoint(t, q)
    requires Disjoint(s, r) && Disjoint(k, r) && Disjoint(t, r)
    requires p.width == 1 && q.width == 1 && r.width == 1
    requires Untouched([s, k, t], 0, c)
    ensures var x := SetFlag(SetFlag(SetFlag(c, p, on1), q, on2), r, on3);
      && x == c + (if on1 then p.Unit() else 0) + (if on2 then q.Unit() else 0) + (if on3 then r.Unit() else 0)
      && p.Get(x) == (if on1 then 1 else 0) && q.Get(x) == (if on2 then 1 else 0) && r.Get(x) == (if on3 then 1 else 0)
      && s.Get(x) == s.Get(c) && k.Get(x) == k.Get(c) && t.Get(x) == t.Get(c)
      && Untouched([s, k, t, p, q, r], 0, x)
  {
    var x := SetFlag(SetFlag(SetFlag(c, p, on1), q, on2), r, on3);
    var mode := [s, k, t];
    assert forall i :: 0 <= i < |mode| ==> Disjoint(mode[i], p) && Disjoint(mode[i], q) && Disjoint(mode[i], r);
    assert p.Get(c) == p.Get(0) && q.Get(c) == q.Get(0) && r.Get(c) == r.Get(0);
    assert p.Get(0) == 0 && q.Get(0) == 0 && r.Get(0) == 0 by {
      DivModUnique(0, p.Unit(), 0, 0);
      DivModUnique(0, q.Unit(), 0, 0);
      DivModUnique(0, r.Unit(), 0, 0);
    }
    ThreeFlags(p, q, r, c, on1, on2, on3);
    var flags := [p, q, r];
    assert forall i :: 0 <= i < |flags| ==> Disjoint(flags[i], s) && Disjoint(flags[i], k) && Disjoint(flags[i], t);
    var all := [s, k, t, p, q, r];
    assert Untouched(all, 0, x) by {
      assert forall i :: 0 <= i < |mode| ==> mode[i] in all;
      assert forall i :: 0 <= i < |flags| ==> flags[i] in all;
      UntouchedSubset(mode, all, 0, c);
      UntouchedSubset(flags, all, c, x);
      UntouchedTrans(all, 0, c, x);
    }
  }

  /** The start word holds continuous mode, the clock, the rate and the requested flags, and nothing else. */
  lemma StartCommandFields(rate: u32, sinc3: u8, rej60: u8, noDelay: u8)
    ensures StartCommand(rate, sinc3, rej60, noDelay) < 0x100_0000
    ensures StartWordHolds(StartCommand(rate, sinc3, rej60, noDelay), rate, sinc3 != 0, rej60 != 0, noDelay != 0)
  {
    var c := ModeCommand(MODE_CONT, rate);
    ModeCommandFields(MODE_CONT, rate);
    FlagsOnWord(MODE_SEL, MODE_CLKSRC, MODE_RATE, MODE_SINC3, MODE_REJ60, MODE_SCYCLE, c, sinc3 != 0, rej60 != 0, noDelay != 0);
    assert START_FIELDS == [MODE_SEL, MODE_CLKSRC, MODE_RATE, MODE_SINC3, MODE_REJ60, MODE_SCYCLE];
    FieldWeights();
  }

  // ---- Conversions ----

  /** The write of the mode word of the conversion routines, chip select held by the caller. */
  function ModeWrite(mode: nat, rate: nat): (e: Event)
    ensures RegisterWrite(e, REG_MODE, 0, 3)
    ensures ModeWordHolds(WrittenWord(e), mode, rate)
  {
    var word := ModeCommand(mode, rate);
    ModeCommandFields(mode, rate);
    assert WrittenWord(SetRegisterValue(REG_MODE, word, 3, 0)) == word by {
      ThreeBytes();
      ModOfSmall(word, 0x100_0000);
    }
    SetRegisterValue(REG_MODE, word, 3, 0)
  }

  /** The 24-bit conversion result at reply bytes `4k+1 .. 4k+3`. */
  function Sample(replies: seq<u8>, k: nat): (v: nat)
    requires |replies| >= 4 * k + 4
    ensures v < 0x100_0000
  {
    Pow256Table();
    BigEndian(replies[4 * k + 1..4 * k + 4])
  }

  /** The read of the data register that consumes reply bytes `4k .. 4k+3`, chip select held. */
  function DataRead(replies: seq<u8>, k: nat): Event
    requires |replies| >= 4 * k + 4
  {
    Read(0, ReadRequest(REG_DATA, 3), replies[4 * k..4 * k + 4])
  }

  /** One data-register read with chip select held: the k-th sample is what the converter sent. */
  lemma DataReadIsSample(replies: seq<u8>, k: nat)
    requires |replies| >= 4 * k + 4
    ensures var rd := GetRegisterValue(REG_DATA, 3, 0, replies[4 * k..]);
      && rd.events == [DataRead(replies, k)] && rd.value == Sample(replies, k)
      && ReadWord(DataRead(replies, k)) == Sample(replies, k)
      && rd.rest == replies[4 * k + 4..]
  {
    var tail := replies[4 * k..];
    assert tail[..4] == replies[4 * k..4 * k + 4];
    assert tail[1..4] == replies[4 * k + 1..4 * k + 4];
    assert tail[4..] == replies[4 * k + 4..];
  }

  /** The first sample after `4j` reply bytes is the j-th sample. */
  lemma SampleOfSuffix(replies: seq<u8>, j: nat)
    requires |replies| >= 4 * j + 4
    ensures Sample(replies[4 * j..], 0) == Sample(replies, j) && replies[4 * j..][4..] == replies[4 * j + 4..]
  {
    assert replies[4 * j..][1..4] == replies[4 * j + 1..4 * j + 4];
  }

  /** A write and a read that leave chip select alone, with a wait between them, bracketed by one lowering and one raising. */
  lemma HeldConversion(write: Event, read: Event)
    requires InsideHold(write) && InsideHold(read)
    ensures Bracketed([CsLow, write, WaitReady, read, CsHigh])
  {
    var events := [CsLow, write, WaitReady, read, CsHigh];
    assert InsideHold(events[1]) && InsideHold(events[2]) && InsideHold(events[3]);
  }

  /**
    A single conversion: chip select low, single-conversion mode written at
    filter rate 0x60, wait for the ready line, one data read, chip select
    high; the result is the 24-bit value the converter sent.
   */
  function SingleConversion(replies: seq<u8>): (r: Run<nat>)
    requires |replies| >= 4
    ensures |r.events| == 5 && RegisterWrite(r.events[1], REG_MODE, 0, 3)
    ensures ModeWordHolds(WrittenWord(r.events[1]), MODE_SINGLE, 0x60)
    ensures r.events[2] == WaitReady && r.events[3] == DataRead(replies, 0)
    ensures r.value == Sample(replies, 0) == ReadWord(r.events[3])
    ensures Bracketed(r.events) && r.rest == replies[4..]
  {
    DataReadIsSample(replies, 0);
    var rd := GetRegisterValue(REG_DATA, 3, 0, replies);
    var write := ModeWrite(MODE_SINGLE, 0x60);
    var events := [CsLow, write, WaitReady, DataRead(replies, 0), CsHigh];
    HeldConversion(write, DataRead(replies, 0));
    var value: nat := rd.value;
    Run(value, events, rd.rest)
  }

  // ---- The sampling loop ----

  /** The first `n` samples the converter sent, in order. */
  function Samples(replies: seq<u8>, n: nat): (s: seq<nat>)
    requires |replies| >= 4 * n
    ensures |s| == n
    ensures forall k :: 0 <= k < n ==> s[k] == Sample(replies, k) && s[k] < 0x100_0000
  {
    seq(n, k requires 0 <= k < n => Sample(replies, k))
  }

  /** One more pass of the sampling loop appends one sample. */
  lemma SamplesExtend(replies: seq<u8>, n: nat)
    requires |replies| >= 4 * n + 4
    ensures Samples(replies, n + 1) == Samples(replies, n) + [Sample(replies, n)]
  {
  }

  /**
    From event `from` on, `n` passes of the sampling loop: each waits for
    the ready line and then reads the data register with chip select held.
   */
  ghost predicate SamplingEvents(events: seq<Event>, from: nat, replies: seq<u8>, n: nat)
  {
    && |replies| >= 4 * n && |events| >= from + 2 * n
    && forall k :: 0 <= k < n ==> events[from + 2 * k] == WaitReady && events[from + 2 * k + 1] == DataRead(replies, k)
  }

  /** The sum of a sequence of samples. */
  function Sum(s: seq<nat>): nat
  {
    if |s| == 0 then 0 else Sum(s[..|s| - 1]) + s[|s| - 1]
  }

  /** A sum of `|s|` values, each at most `hi`, is at most `|s| * hi`. */
  lemma {:induction false} SumAtMost(s: seq<nat>, hi: nat)
    requires forall k :: 0 <= k < |s| ==> s[k] <= hi
    ensures Sum(s) <= |s| * hi
  {
    if |s| > 0 {
      SumAtMost(s[..|s| - 1], hi);
    }
  }

  /** A sum of `|s|` values, each at least `lo`, is at least `|s| * lo`. */
  lemma {:induction false} SumAtLeast(s: seq<nat>, lo: nat)
    requires forall k :: 0 <= k < |s| ==> lo <= s[k]
    ensures |s| * lo <= Sum(s)
  {
    if |s| > 0 {
      SumAtLeast(s[..|s| - 1], lo);
    }
  }

  lemma MulMonotone(x: int, y: int, n: int)
    requires x <= y && n >= 0
    ensures x * n <= y * n
  {
    MulNonNegative(y - x, n);
    assert (y - x) * n == y * n - x * n;
  }

  /** `a * n <= x` puts `a` at or below the quotient `x / n`. */
  lemma DivLower(x: nat, n: nat, a: nat)
    requires n > 0 && a * n <= x
    ensures a <= x / n
  {
    var q := x / n;
    assert x == q * n + x % n && (q + 1) * n == q * n + n;
    if q < a {
      MulMonotone(q + 1, a, n);
    }
  }

  /** `x <= b * n` puts the quotient `x / n` at or below `b`. */
  lemma DivUpper(x: nat, n: nat, b: nat)
    requires n > 0 && x <= b * n
    ensures x / n <= b
  {
    var q := x / n;
    assert x == q * n + x % n && (b + 1) * n == b * n + n;
    if q > b {
      MulMonotone(b + 1, q, n);
    }
  }

  /** The average of values that all lie in `[lo, hi]` lies in `[lo, hi]` too. */
  lemma AverageWithin(s: seq<nat>, lo: nat, hi: nat)
    requires |s| >= 1
    requires forall k :: 0 <= k < |s| ==> lo <= s[k] <= hi
    ensures lo <= Sum(s) / |s| <= hi
  {
    var total, n := Sum(s), |s|;
    SumAtLeast(s, lo);
    SumAtMost(s, hi);
    DivLower(total, n, lo);
    DivUpper(total, n, hi);
  }

  /** Appending one more pass of the sampling loop to a trace. */
  lemma SamplingStep(events: seq<Event>, from: nat, replies: seq<u8>, n: nat)
    requires SamplingEvents(events, from, replies, n) && |events| == from + 2 * n
    requires |replies| >= 4 * n + 4
    ensures SamplingEvents(events + [WaitReady, DataRead(replies, n)], from, replies, n + 1)
  {
    var more := events + [WaitReady, DataRead(replies, n)];
    forall k | 0 <= k < n + 1
      ensures more[from + 2 * k] == WaitReady && more[from + 2 * k + 1] == DataRead(replies, k)
    {
      if k < n {
        assert more[from + 2 * k] == events[from + 2 * k];
        assert more[from + 2 * k + 1] == events[from + 2 * k + 1];
      }
    }
  }

  /** Every event from `from` on may run with chip select held. */
  ghost predicate HeldFrom(events: seq<Event>, from: nat)
  {
    forall k :: from <= k < |events| ==> InsideHold(events[k])
  }

  lemma HeldAppend(events: seq<Event>, from: nat, more: seq<Event>)
    requires HeldFrom(events, from) && from <= |events|
    requires forall k :: 0 <= k < |more| ==> InsideHold(more[k])
    ensures HeldFrom(events + more, from)
  {
    var all := events + more;
    forall k | from <= k < |all|
      ensures InsideHold(all[k])
    {
      if k >= |events| {
        assert all[k] == more[k - |events|];
      }
    }
  }

  /** A trace that starts with chip select low and holds it is bracketed once chip select is raised. */
  lemma CloseBracket(events: seq<Event>)
    requires |events| >= 1 && events[0] == CsLow && HeldFrom(events, 1)
    ensures Bracketed(events + [CsHigh])
  {
    var all := events + [CsHigh];
    forall k | 0 < k < |all| - 1
      ensures InsideHold(all[k])
    {
      assert all[k] == events[k];
    }
  }

  /** The 32-bit accumulator of the averaging loop never wraps: 255 samples of 24 bits fit. */
  lemma AccumulatorFits(samples: seq<nat>, x: nat)
    requires |samples| < 255 && x < 0x100_0000
    requires forall k :: 0 <= k < |samples| ==> samples[k] < 0x100_0000
    ensures Sum(samples + [x]) == Sum(samples) + x < TWO_32
  {
    var more := samples + [x];
    assert more[..|samples|] == samples;
    SumAtMost(more, 0xFF_FFFF);
  }

  /** One pass of the averaging loop adds the next sample to the running sum, which stays below 2^32. */
  lemma AccumulatorStep(replies: seq<u8>, count: nat, total: nat)
    requires count < 255 && |replies| >= 4 * count + 4 && total == Sum(Samples(replies, count))
    ensures total + Sample(replies, count) == Sum(Samples(replies, count + 1)) < TWO_32
  {
    var samples := Samples(replies, count);
    SamplesExtend(replies, count);
    AccumulatorFits(samples, Sample(replies, count));
  }

  /** Addition in a 32-bit unsigned accumulator; exact when the sum fits. */
  function Add32(a: u32, b: nat): (r: u32)
    ensures a + b < TWO_32 ==> r == a + b
  {
    if a + b < TWO_32 then
      ModOfSmall(a + b, TWO_32);
      (a + b) % TWO_32
    else
      (a + b) % TWO_32
  }

  /**
    The `head` events (chip select lowered, possibly a mode write), then `n`
    passes of the sampling loop, all with chip select held.
   */
  ghost predicate HeldSampling(events: seq<Event>, head: seq<Event>, replies: seq<u8>, n: nat)
  {
    && |head| >= 1 && head[0] == CsLow && |events| == |head| + 2 * n && events[..|head|] == head
    && SamplingEvents(events, |head|, replies, n) && HeldFrom(events, 1)
  }

  lemma SampleOnce(events: seq<Event>, head: seq<Event>, replies: seq<u8>, n: nat)
    requires HeldSampling(events, head, replies, n) && |replies| >= 4 * n + 4
    ensures HeldSampling(events + [WaitReady, DataRead(replies, n)], head, replies, n + 1)
  {
    var more := events + [WaitReady, DataRead(replies, n)];
    SamplingStep(events, |head|, replies, n);
    HeldAppend(events, 1, [WaitReady, DataRead(replies, n)]);
    assert more[..|head|] == events[..|head|];
  }

  lemma CloseSampling(events: seq<Event>, head: seq<Event>, replies: seq<u8>, n: nat)
    requires HeldSampling(events, head, replies, n)
    ensures var all := events + [CsHigh];
      && Bracketed(all) && all[..|head|] == head && SamplingEvents(all, |head|, replies, n)
  {
    CloseBracket(events);
    var all := events + [CsHigh];
    assert forall k :: 0 <= k < |events| ==> all[k] == events[k];
    assert all[..|head|] == events[..|head|];
  }

  /** The sampling loop after the mode write, closed by raising chip select. */
  lemma CloseAveraging(events: seq<Event>, write: Event, replies: seq<u8>, n: nat)
    requires HeldSampling(events, [CsLow, write], replies, n)
    ensures var all := events + [CsHigh];
      && |all| == 2 * n + 3 && all[1] == write && Bracketed(all) && SamplingEvents(all, 2, replies, n)
  {
    CloseSampling(events, [CsLow, write], replies, n);
    assert (events + [CsHigh])[1] == (events + [CsHigh])[..2][1];
  }

  /**
    The sampling loop of the averaged read: after the `head` events, `n`
    passes that wait for the ready line and read the data register, the
    samples summed in a 32-bit accumulator.
   */
  method AccumulateSamples(head: seq<Event>, n: u8, replies: seq<u8>) returns (total: u32, events: seq<Event>)
    requires HeldSampling(head, head, replies, 0) && |replies| >= 4 * n
    ensures total == Sum(Samples(replies, n)) && HeldSampling(events, head, replies, n)
  {
    events := head;
    total := 0;
    var count: u8 := 0;
    while count < n
      invariant count <= n
      invariant total == Sum(Samples(replies, count))
      invariant HeldSampling(events, head, replies, count)
    {
      var sample := Sample(replies, count);
      AccumulatorStep(replies, count, total);
      SampleOnce(events, head, replies, count);
      total := Add32(total, sample);
      events := events + [WaitReady, DataRead(replies, count)];
      count := count + 1;
    }
  }

  /**
    The averaged continuous read: continuous-conversion mode at filter rate
    0x60, then `sampleNumber` passes of the sampling loop, all with chip
    select held; the samples are summed in a 32-bit accumulator and the sum
    is divided by the number of samples. The sum cannot wrap: at most 255
    samples below 2^24 each stay below 2^32, so the result is the exact mean
    (rounded down) of the samples the converter sent.
   */
  method ContinuousReadAvg(sampleNumber: u8, replies: seq<u8>) returns (r: Run<nat>)
    requires sampleNumber >= 1 && |replies| >= 4 * sampleNumber
    ensures |r.events| == 2 * sampleNumber + 3
    ensures RegisterWrite(r.events[1], REG_MODE, 0, 3)
    ensures ModeWordHolds(WrittenWord(r.events[1]), MODE_CONT, 0x60)
    ensures SamplingEvents(r.events, 2, replies, sampleNumber)
    ensures r.value == Sum(Samples(replies, sampleNumber)) / sampleNumber
    ensures Bracketed(r.events) && r.rest == replies[4 * sampleNumber..]
  {
    var write := ModeWrite(MODE_CONT, 0x60);
    var samplesAverage, events := AccumulateSamples([CsLow, write], sampleNumber, replies);
    DivIsNat(samplesAverage, sampleNumber);
    var average: nat := samplesAverage / sampleNumber;
    CloseAveraging(events, write, replies, sampleNumber);
    r := Run(average, events + [CsHigh], replies[4 * sampleNumber..]);
  }

  /** The write of the start word, chip select held by the caller. */
  function StartWrite(sampleRate: u32, sinc3Filter: u8, rej60: u8, noDelay: u8): (e: Event)
    ensures RegisterWrite(e, REG_MODE, 0, 3)
    ensures StartWordHolds(WrittenWord(e), sampleRate, sinc3Filter != 0, rej60 != 0, noDelay != 0)
  {
    var command := StartCommand(sampleRate, sinc3Filter, rej60, noDelay);
    StartCommandFields(sampleRate, sinc3Filter, rej60, noDelay);
    assert WrittenWord(SetRegisterValue(REG_MODE, command, 3, 0)) == command by {
      ThreeBytes();
      ModOfSmall(command, 0x100_0000);
    }
    SetRegisterValue(REG_MODE, command, 3, 0)
  }

  /**
    Starts continuous conversion: the mode word holds continuous mode, the
    external clock, `sampleRate` in the filter-rate field and the three
    requested filter flags, and is written with chip select held.
   */
  function ContinuousConvStart(sampleRate: u32, sinc3Filter: u8, rej60: u8, noDelay: u8): (events: seq<Event>)
    ensures |events| == 3 && Bracketed(events)
    ensures RegisterWrite(events[1], REG_MODE, 0, 3)
    ensures StartWordHolds(WrittenWord(events[1]), sampleRate, sinc3Filter != 0, rej60 != 0, noDelay != 0)
  {
    var write := StartWrite(sampleRate, sinc3Filter, rej60, noDelay);
    var events := [CsLow, write, CsHigh];
    assert Bracketed(events) by {
      Bracket([write]);
      assert events == [CsLow] + [write] + [CsHigh];
    }
    events
  }

  /** One more pass of the packing loop appends the next sample's group. */
  lemma PackStep(replies: seq<u8>, count: nat)
    requires |replies| >= 4 * count + 4
    ensures PackAll(Samples(replies, count + 1)) == PackAll(Samples(replies, count)) + Pack(Sample(replies, count))
  {
    SamplesExtend(replies, count);
    PackAllAppend(Samples(replies, count), Sample(replies, count));
  }

  /** Every group of the packed buffer unpacks to the sample it was made from. */
  lemma PackedSamples(replies: seq<u8>, n: nat)
    requires |replies| >= 4 * n
    ensures var bytes := PackAll(Samples(replies, n));
      forall k :: 0 <= k < n ==> WellFormedGroup(bytes[4 * k..4 * k + 4]) && Unpack(bytes[4 * k..4 * k + 4]) == Sample(replies, k)
  {
    var samples := Samples(replies, n);
    forall k | 0 <= k < n
      ensures WellFormedGroup(PackAll(samples)[4 * k..4 * k + 4])
      ensures Unpack(PackAll(samples)[4 * k..4 * k + 4]) == Sample(replies, k)
    {
      UnpackAll(samples, k);
    }
  }

  /** The first byte of every sample's group is below 64: samples are 24-bit reads. */
  lemma PackedSampleLeads(replies: seq<u8>, n: nat)
    requires |replies| >= 4 * n
    ensures var bytes := PackAll(Samples(replies, n));
      forall k :: 0 <= k < n ==> bytes[4 * k] < 64
  {
    var bytes := PackAll(Samples(replies, n));
    forall k | 0 <= k < n
      ensures bytes[4 * k] < 64
    {
      assert bytes[4 * k] == bytes[4 * k..4 * k + 4][0];
      PackLeadByte(Sample(replies, k));
    }
  }

  /**
    The packed continuous read: `sampleNumber` passes of the sampling loop
    with chip select held, each sample stored as four 7-bit bytes. The
    buffer holds the packings of the samples in order, and each group
    unpacks to the sample it came from.
   */
  method ContinuousConvRead(sampleNumber: u8, replies: seq<u8>) returns (r: Run<seq<u8>>)
    requires |replies| >= 4 * sampleNumber
    ensures |r.events| == 2 * sampleNumber + 2 && SamplingEvents(r.events, 1, replies, sampleNumber)
    ensures r.value == PackAll(Samples(replies, sampleNumber)) && |r.value| == 4 * sampleNumber
    ensures forall k :: 0 <= k < sampleNumber ==> Unpack(r.value[4 * k..4 * k + 4]) == Sample(replies, k)
    ensures Bracketed(r.events) && r.rest == replies[4 * sampleNumber..]
  {
    var p: seq<u8> := [];
    var events := [CsLow];
    var count: u8 := 0;
    while count < sampleNumber
      invariant count <= sampleNumber
      invariant p == PackAll(Samples(replies, count))
      invariant HeldSampling(events, [CsLow], replies, count)
    {
      var samples := Sample(replies, count);
      PackStep(replies, count);
      SampleOnce(events, [CsLow], replies, count);
      p := p + [(samples / 0x4_0000) % 128, (samples / 0x1000) % 128, (samples / 64) % 128, samples % 128];
      events := events + [WaitReady, DataRead(replies, count)];
      count := count + 1;
    }
    CloseSampling(events, [CsLow], replies, sampleNumber);
    PackedSamples(replies, sampleNumber);
    r := Run(p, events + [CsHigh], replies[4 * sampleNumber..]);
  }

  // ---- The time-stamped read ----

  /** What the time-stamped read leaves behind: the packed buffer and the start time it keeps between calls. */
  datatype Stamped = Stamped(bytes: seq<u8>, startTimer: u64)

  /** Ticks since `start`, as the 64-bit unsigned subtraction computes them. */
  function Elapsed(now: u64, start: u64): u64
  {
    (now - start) % TWO_64
  }

  /** A reading taken at or after the start gives the plain difference. */
  lemma ElapsedSince(now: u64, start: u64)
    requires start <= now
    ensures Elapsed(now, start) == now - start
  {
    ModOfSmall(now - start, TWO_64);
  }

  /** A reading below the start (the counter wrapped) gives the difference plus 2^64. */
  lemma ElapsedAcrossWrap(now: u64, start: u64)
    requires now < start
    ensures Elapsed(now, start) == now + TWO_64 - start
  {
    DivModUnique(now - start, TWO_64, -1, now + TWO_64 - start);
  }

  /** Later readings give later time stamps as long as the counter has not wrapped since the start. */
  lemma ElapsedMonotone(start: u64, earlier: u64, later: u64)
    requires start <= earlier <= later
    ensures Elapsed(earlier, start) <= Elapsed(later, start)
  {
    ElapsedSince(earlier, start);
    ElapsedSince(later, start);
  }

  /** The values the time-stamped loop packs: for each pass its time stamp, then its sample. */
  function StampedValues(readings: seq<u64>, start: u64, replies: seq<u8>, n: nat): (s: seq<nat>)
    requires |readings| >= n && |replies| >= 4 * n
    ensures |s| == 2 * n
    ensures forall k :: 0 <= k < n ==> s[2 * k] == Elapsed(readings[k], start) && s[2 * k + 1] == Sample(replies, k)
  {
    if n == 0 then []
    else
      var init := StampedValues(readings, start, replies, n - 1);
      var s := init + [Elapsed(readings[n - 1], start), Sample(replies, n - 1)];
      assert forall k :: 0 <= k < 2 * (n - 1) ==> s[k] == init[k];
      s
  }

  /** One more pass of the time-stamped loop appends the group of its time stamp and the group of its sample. */
  lemma StampStep(readings: seq<u64>, start: u64, replies: seq<u8>, n: nat)
    requires |readings| >= n + 1 && |replies| >= 4 * n + 4
    ensures PackAll(StampedValues(readings, start, replies, n + 1))
      == PackAll(StampedValues(readings, start, replies, n)) + Pack(Elapsed(readings[n], start)) + Pack(Sample(replies, n))
  {
    var init := StampedValues(readings, start, replies, n);
    var stamp := Elapsed(readings[n], start);
    var sample := Sample(replies, n);
    assert StampedValues(readings, start, replies, n + 1) == (init + [stamp]) + [sample];
    PackAllAppend(init, stamp);
    PackAllAppend(init + [stamp], sample);
  }

  /** The k-th pair of groups unpacks to the low 25 bits of the k-th time stamp and to the k-th sample. */
  lemma StampedGroup(readings: seq<u64>, start: u64, replies: seq<u8>, n: nat, k: nat)
    requires |readings| >= n && |replies| >= 4 * n && k < n
    ensures var bytes := PackAll(StampedValues(readings, start, replies, n));
      && Unpack(bytes[8 * k..8 * k + 4]) == Elapsed(readings[k], start) % 0x200_0000
      && Unpack(bytes[8 * k + 4..8 * k + 8]) == Sample(replies, k)
  {
    var values := StampedValues(readings, start, replies, n);
    var bytes := PackAll(values);
    var j := 2 * k;
    assert values[j] == Elapsed(readings[k], start) && values[j + 1] == Sample(replies, k);
    assert bytes[8 * k..8 * k + 4] == Pack(values[j]) by {
      assert bytes[4 * j..4 * j + 4] == Pack(values[j]);
    }
    assert bytes[8 * k + 4..8 * k + 8] == Pack(values[j + 1]) by {
      assert bytes[4 * (j + 1)..4 * (j + 1) + 4] == Pack(values[j + 1]);
    }
    ModOfSmall(values[j + 1], 0x200_0000);
  }

  /** Every pair of groups unpacks to the low 25 bits of its time stamp and to its sample. */
  lemma StampedGroups(readings: seq<u64>, start: u64, replies: seq<u8>, n: nat)
    requires |readings| >= n && |replies| >= 4 * n
    ensures var bytes := PackAll(StampedValues(readings, start, replies, n));
      forall k :: 0 <= k < n ==>
        && Unpack(bytes[8 * k..8 * k + 4]) == Elapsed(readings[k], start) % 0x200_0000
        && Unpack(bytes[8 * k + 4..8 * k + 8]) == Sample(replies, k)
  {
    forall k | 0 <= k < n
      ensures var bytes := PackAll(StampedValues(readings, start, replies, n));
        && Unpack(bytes[8 * k..8 * k + 4]) == Elapsed(readings[k], start) % 0x200_0000
        && Unpack(bytes[8 * k + 4..8 * k + 8]) == Sample(replies, k)
    {
      StampedGroup(readings, start, replies, n, k);
    }
  }

  /**
    From event `from` on, `n` passes of the time-stamped loop: wait for the
    ready line, read the tick counter, read the data register.
   */
  ghost predicate StampingEvents(events: seq<Event>, from: nat, readings: seq<u64>, replies: seq<u8>, n: nat)
  {
    && |readings| >= n && |replies| >= 4 * n && |events| >= from + 3 * n
    && forall k :: 0 <= k < n ==>
      && events[from + 3 * k] == WaitReady && events[from + 3 * k + 1] == Tick(readings[k])
      && events[from + 3 * k + 2] == DataRead(replies, k)
  }

  /** Chip select lowered, then `n` passes of the time-stamped loop, all with chip select held. */
  ghost predicate HeldStamping(events: seq<Event>, readings: seq<u64>, replies: seq<u8>, n: nat)
  {
    && |events| == 1 + 3 * n && events[0] == CsLow
    && StampingEvents(events, 1, readings, replies, n) && HeldFrom(events, 1)
  }

  lemma StampOnce(events: seq<Event>, readings: seq<u64>, replies: seq<u8>, n: nat)
    requires HeldStamping(events, readings, replies, n) && |readings| >= n + 1 && |replies| >= 4 * n + 4
    ensures HeldStamping(events + [WaitReady, Tick(readings[n]), DataRead(replies, n)], readings, replies, n + 1)
  {
    var pass := [WaitReady, Tick(readings[n]), DataRead(replies, n)];
    var more := events + pass;
    forall k | 0 <= k < n + 1
      ensures more[1 + 3 * k] == WaitReady && more[1 + 3 * k + 1] == Tick(readings[k])
      ensures more[1 + 3 * k + 2] == DataRead(replies, k)
    {
      if k < n {
        assert more[1 + 3 * k] == events[1 + 3 * k];
        assert more[1 + 3 * k + 1] == events[1 + 3 * k + 1];
        assert more[1 + 3 * k + 2] == events[1 + 3 * k + 2];
      }
    }
    HeldAppend(events, 1, pass);
  }

  lemma CloseStamping(events: seq<Event>, readings: seq<u64>, replies: seq<u8>, n: nat)
    requires HeldStamping(events, readings, replies, n)
    ensures Bracketed(events + [CsHigh]) && StampingEvents(events + [CsHigh], 1, readings, replies, n)
  {
    CloseBracket(events);
    var all := events + [CsHigh];
    assert forall k :: 0 <= k < |events| ==> all[k] == events[k];
  }

  /** The opening tick read, then the closed time-stamped loop. */
  lemma FinishStamping(before: seq<Event>, events: seq<Event>, readings: seq<u64>, replies: seq<u8>, n: nat)
    requires HeldStamping(events, readings, replies, n)
    ensures var all := before + (events + [CsHigh]);
      && |all| == |before| + 3 * n + 2 && all[..|before|] == before
      && Bracketed(all[|before|..]) && StampingEvents(all[|before|..], 1, readings, replies, n)
  {
    CloseStamping(events, readings, replies, n);
    var all := before + (events + [CsHigh]);
    assert all[..|before|] == before && all[|before|..] == events + [CsHigh];
  }

  /** The start time after the call: a fresh reading with `startFlag` set, the kept one otherwise. */
  function StartTime(startFlag: u8, startTimer: u64, startReading: u64): u64
  {
    if startFlag != 0 then startReading else startTimer
  }

  /** The tick-counter read that opens the call when `startFlag` is set. */
  function StartEvents(startFlag: u8, startReading: u64): (events: seq<Event>)
    ensures SelfManaged(events)
  {
    if startFlag != 0 then [Tick(startReading)] else []
  }

  /**
    The time-stamped continuous read. With `startFlag` set the tick counter
    is read first (`startReading`) and becomes the start time, otherwise the
    start time of the previous call is kept. Then, with chip select held,
    each pass waits for the ready line, reads the tick counter (`readings`,
    one per pass), packs the ticks elapsed since the start, reads the data
    register and packs the sample.
   */
  method ContinuousConvReadAddTimestamp(sampleNumber: u8, startFlag: u8, startTimer: u64, startReading: u64,
                                        readings: seq<u64>, replies: seq<u8>)
    returns (r: Run<Stamped>)
    requires |readings| >= sampleNumber && |replies| >= 4 * sampleNumber
    ensures r.value.startTimer == StartTime(startFlag, startTimer, startReading)
    ensures r.value.bytes == PackAll(StampedValues(readings, r.value.startTimer, replies, sampleNumber))
    ensures var before := StartEvents(startFlag, startReading);
      && |r.events| == |before| + 3 * sampleNumber + 2 && r.events[..|before|] == before
      && Bracketed(r.events[|before|..]) && StampingEvents(r.events[|before|..], 1, readings, replies, sampleNumber)
    ensures r.rest == replies[4 * sampleNumber..]
  {
    var start := StartTime(startFlag, startTimer, startReading);
    var p: seq<u8> := [];
    var events := [CsLow];
    var count: u8 := 0;
    while count < sampleNumber
      invariant count <= sampleNumber
      invariant p == PackAll(StampedValues(readings, start, replies, count))
      invariant HeldStamping(events, readings, replies, count)
    {
      var timestamp := Elapsed(readings[count], start);
      var samples := Sample(replies, count);
      var stampBytes := [(timestamp / 0x4_0000) % 128, (timestamp / 0x1000) % 128, (timestamp / 64) % 128, timestamp % 128];
      var sampleBytes := [(samples / 0x4_0000) % 128, (samples / 0x1000) % 128, (samples / 64) % 128, samples % 128];
      assert p + stampBytes + sampleBytes == PackAll(StampedValues(readings, start, replies, count + 1)) by {
        assert stampBytes == Pack(timestamp) && sampleBytes == Pack(samples);
        StampStep(readings, start, replies, count);
      }
      StampOnce(events, readings, replies, count);
      p := p + stampBytes + sampleBytes;
      events := events + [WaitReady, Tick(readings[count]), DataRead(replies, count)];
      count := count + 1;
    }
    var before := StartEvents(startFlag, startReading);
    FinishStamping(before, events, readings, replies, sampleNumber);
    r := Run(Stamped(p, start), before + (events + [CsHigh]), replies[4 * sampleNumber..]);
  }

  // ---- Temperature ----

  /**
    The driver's conversion of a temperature-sensor reading: subtract the
    mid-scale code, divide by 2815 codes per kelvin, subtract 273, all in
    32-bit unsigned arithmetic, then keep the low byte.
   */
  function TemperatureCode(dataReg: nat): u8
  {
    var offset := (dataReg - 0x80_0000) % TWO_32;
    var kelvin := offset / 2815;
    var celsius := (kelvin - 273) % TWO_32;
    celsius % 256
  }

  /** Degrees Celsius of a reading at or above mid-scale, rounded towards zero kelvin. */
  function Celsius(dataReg: nat): int
    requires dataReg >= 0x80_0000
  {
    (dataReg - 0x80_0000) / 2815 - 273
  }

  /** The byte read as a two's-complement number. */
  function SignedByte(b: u8): int
  {
    if b < 128 then b else b - 256
  }

  /** Reducing modulo 2^32 first does not change the low byte, also for negative numbers. */
  lemma LowByteOfWrapped(x: int)
    ensures (x % TWO_32) % 256 == x % 256
  {
    var q := x / TWO_32;
    var w := x % TWO_32;
    assert x == q * TWO_32 + w;
    DivModUnique(x, 256, q * 0x100_0000 + w / 256, w % 256);
  }

  /** For every 24-bit reading at or above mid-scale, the result is the Celsius temperature modulo 256. */
  lemma TemperatureCodeIsCelsius(dataReg: nat)
    requires 0x80_0000 <= dataReg < 0x100_0000
    ensures TemperatureCode(dataReg) == Celsius(dataReg) % 256
  {
    ModOfSmall(dataReg - 0x80_0000, TWO_32);
    LowByteOfWrapped((dataReg - 0x80_0000) / 2815 - 273);
  }

  /** Temperatures from -128 to 127 degrees come back as their two's-complement byte. */
  lemma TemperatureAsSignedByte(dataReg: nat)
    requires 0x80_0000 <= dataReg < 0x100_0000
    requires -128 <= Celsius(dataReg) <= 127
    ensures SignedByte(TemperatureCode(dataReg)) == Celsius(dataReg)
  {
    TemperatureCodeIsCelsius(dataReg);
    var c := Celsius(dataReg);
    if c < 0 {
      DivModUnique(c, 256, -1, c + 256);
    } else {
      ModOfSmall(c, 256);
    }
  }

  /**
    The temperature reading: bipolar range with gain 1 and chopping off,
    the temperature-sensor channel selected, one single conversion, and
    the driver's conversion of its result.
   */
  function TemperatureRead(replies: seq<u8>): (r: Run<nat>)
    requires |replies| >= 12
    ensures r.events == RangeSetup(0, 0, CONF_GAIN_1, replies).events
      + ChannelSelect(CH_TEMP_SENSOR, replies[4..]).events + SingleConversion(replies[8..]).events
    ensures r.value == TemperatureCode(Sample(replies, 2)) && r.rest == replies[12..]
  {
    var range := RangeSetup(0, 0, CONF_GAIN_1, replies);
    var channel := ChannelSelect(CH_TEMP_SENSOR, replies[4..]);
    var tail := replies[8..];
    var conversion := SingleConversion(tail);
    assert conversion.value == Sample(replies, 2) && conversion.rest == replies[12..] by {
      SampleOfSuffix(replies, 2);
    }
    var temperature: nat := TemperatureCode(conversion.value);
    Run(temperature, range.events + channel.events + conversion.events, conversion.rest)
  }

  /** The temperature reading keeps the chip-select discipline. */
  lemma TemperatureReadBalanced(replies: seq<u8>)
    requires |replies| >= 12
    ensures CsBalanced(TemperatureRead(replies).events)
  {
    var setup := RangeSetup(0, 0, CONF_GAIN_1, replies).events + ChannelSelect(CH_TEMP_SENSOR, replies[4..]).events;
    SelfManagedAppend(RangeSetup(0, 0, CONF_GAIN_1, replies).events, ChannelSelect(CH_TEMP_SENSOR, replies[4..]).events);
    ManagedThenBracketed(setup, SingleConversion(replies[8..]).events);
  }
}
