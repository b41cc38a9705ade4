/**
  The 7-bit packing of the continuous-read routines.

  Each value is stored as four bytes, `(v >> 18) & 0x7f`, `(v >> 12) & 0x7f`,
  `(v >> 6) & 0x7f` and `v & 0x7f`, so every byte has its top bit clear.
  Consecutive bytes are six bits apart but seven bits wide, so the top bit
  of each of the last three bytes repeats the lowest bit of the byte before
  it. `Unpack` is the reader's side: it recovers the low 25 bits of the
  value, and every well-formed group is the packing of its unpacked value.
 */
module Packing {
  import opened Bits

  /** The four 7-bit bytes of `v`, most significant first. */
  function Pack(v: nat): (b: seq<u8>)
    ensures WellFormedGroup(b)
    ensures Unpack(b) == v % 0x200_0000
  {
    var b := [(v / 0x4_0000) % 128, (v / 0x1000) % 128, (v / 64) % 128, v % 128];
    PackShape(v);
    UnpackPack(v);
    b
  }

  /** The value a group of four packed bytes stands for. */
  function Unpack(b: seq<u8>): nat
    requires |b| == 4
  {
    (b[0] as nat) * 0x4_0000 + (b[1] as nat % 64) * 0x1000 + (b[2] as nat % 64) * 64 + b[3] as nat % 64
  }

  /** Four bytes below 128 whose overlapping bits agree. */
  predicate WellFormedGroup(b: seq<u8>)
  {
    && |b| == 4
    && (forall i :: 0 <= i < 4 ==> b[i] < 128)
    && b[1] / 64 == b[0] % 2 && b[2] / 64 == b[1] % 2 && b[3] / 64 == b[2] % 2
  }

  /** `x = y * 64 + c` with `c < 64` keeps `c` and the lowest bit of `y` below 128. */
  lemma LowSeptet(x: nat, y: nat, c: nat)
    requires x == y * 64 + c && c < 64
    ensures x % 128 == (y % 2) * 64 + c
    ensures x / 64 == y && x % 64 == c
  {
    DivModUnique(x, 128, y / 2, (y % 2) * 64 + c);
    DivModUnique(x, 64, y, c);
  }

  lemma PackShape(v: nat)
    ensures var b := [(v / 0x4_0000) % 128, (v / 0x1000) % 128, (v / 64) % 128, v % 128];
      WellFormedGroup(b)
  {
    var q1 := v / 64;
    var q2 := q1 / 64;
    var q3 := q2 / 64;
    DivDiv(v, 64, 64);
    DivDiv(q1, 64, 64);
    DivDiv(v, 64, 4096);
    LowSeptet(v, q1, v % 64);
    LowSeptet(q1, q2, q1 % 64);
    LowSeptet(q2, q3, q2 % 64);
    ModMod(q3, 2, 64);
    ModMod(q2, 2, 64);
    ModMod(q1, 2, 64);
  }

  /** A group encodes every bit of the value below bit 25. */
  lemma UnpackPack(v: nat)
    ensures var b := [(v / 0x4_0000) % 128, (v / 0x1000) % 128, (v / 64) % 128, v % 128];
      Unpack(b) == v % 0x200_0000
  {
    ModSplit(v, 0x4_0000, 128);
    ModSplit(v, 0x1000, 64);
    ModSplit(v, 64, 64);
    ModMod(v / 0x1000, 64, 2);
    ModMod(v / 64, 64, 2);
    ModMod(v, 64, 2);
  }

  /** `w mod (u*s)` keeps the digit between `u` and `u*s` and the part below `u`. */
  lemma ModSplit(w: nat, u: nat, s: nat)
    requires u > 0 && s > 0
    ensures w % (u * s) == ((w / u) % s) * u + w % u
  {
    SplitDigits(w, u, s);
    JoinDigits(0, (w / u) % s, w % u, u, s);
    DivModUnique(w, u * s, w / (u * s), ((w / u) % s) * u + w % u);
  }

  /** Every well-formed group is the packing of the value it stands for. */
  lemma PackUnpack(b: seq<u8>)
    requires WellFormedGroup(b)
    ensures Pack(Unpack(b)) == b
  {
    PackedBytes(b);
  }

  /** The four 7-bit slices of a well-formed group's value are the group's own bytes. */
  lemma PackedBytes(b: seq<u8>)
    requires WellFormedGroup(b)
    ensures var v := Unpack(b);
      && (v / 0x4_0000) % 128 == b[0] && (v / 0x1000) % 128 == b[1]
      && (v / 64) % 128 == b[2] && v % 128 == b[3]
  {
    SeptetChain(b[0], b[1], b[2], b[3]);
  }

  /** The arithmetic behind `PackedBytes`, on the four bytes as numbers. */
  lemma SeptetChain(b0: nat, b1: nat, b2: nat, b3: nat)
    requires b0 < 128 && b1 < 128 && b2 < 128 && b3 < 128
    requires b1 / 64 == b0 % 2 && b2 / 64 == b1 % 2 && b3 / 64 == b2 % 2
    ensures var v := b0 * 0x4_0000 + (b1 % 64) * 0x1000 + (b2 % 64) * 64 + b3 % 64;
      && (v / 0x4_0000) % 128 == b0 && (v / 0x1000) % 128 == b1
      && (v / 64) % 128 == b2 && v % 128 == b3
  {
    var c1, c2, c3 := b1 % 64, b2 % 64, b3 % 64;
    var q2 := b0 * 64 + c1;
    var q1 := q2 * 64 + c2;
    var v := q1 * 64 + c3;
    assert v % 128 == b3 && v / 64 == q1 by {
      Parity(q1, q2, c2);
      Parity(b2, b2 / 64, c2);
      SeptetMatches(v, q1, c3, b3);
    }
    assert q1 % 128 == b2 && q1 / 64 == q2 by {
      Parity(q2, b0, c1);
      Parity(b1, b1 / 64, c1);
      SeptetMatches(q1, q2, c2, b2);
    }
    assert q2 % 128 == b1 && q2 / 64 == b0 by {
      SeptetMatches(q2, b0, c1, b1);
    }
    assert v / 0x1000 == q2 by {
      DivDiv(v, 64, 64);
    }
    assert v / 0x4_0000 == b0 by {
      DivDiv(v, 4096, 64);
    }
  }

  lemma Parity(x: nat, y: nat, c: nat)
    requires x == y * 64 + c && c < 64
    ensures x % 2 == c % 2
  {
    DivModUnique(x, 2, y * 32 + c / 2, c % 2);
  }

  /** The byte `t` is the low seven bits of `x = y * 64 + c` when it agrees with `c` and with `y`'s lowest bit. */
  lemma SeptetMatches(x: nat, y: nat, c: nat, t: nat)
    requires x == y * 64 + c && c < 64
    requires t < 128 && t % 64 == c && t / 64 == y % 2
    ensures x % 128 == t && x / 64 == y
  {
    LowSeptet(x, y, c);
  }

  /** A 24-bit value has nothing above bit 23, so its first byte is below 64. */
  lemma PackLeadByte(v: nat)
    requires v < 0x100_0000
    ensures Pack(v)[0] < 64
  {
    DivModUnique(v, 0x4_0000, v / 0x4_0000, v % 0x4_0000);
    ModOfSmall(v / 0x4_0000, 128);
  }

  /** The packings of a sequence of values, four bytes each, in order. */
  function PackAll(values: seq<nat>): (bytes: seq<u8>)
    ensures |bytes| == 4 * |values|
    ensures forall k :: 0 <= k < |values| ==> bytes[4 * k..4 * k + 4] == Pack(values[k])
  {
    if |values| == 0 then []
    else
      var init := PackAll(values[..|values| - 1]);
      var bytes := init + Pack(values[|values| - 1]);
      assert forall k :: 0 <= k < |values| - 1 ==> bytes[4 * k..4 * k + 4] == init[4 * k..4 * k + 4];
      bytes
  }

  /** Packing and unpacking round-trip every value below 2^25, in particular every 24-bit sample. */
  lemma UnpackAll(values: seq<nat>, k: nat)
    requires k < |values| && values[k] < 0x200_0000
    ensures Unpack(PackAll(values)[4 * k..4 * k + 4]) == values[k]
  {
    var group := PackAll(values)[4 * k..4 * k + 4];
    assert group == Pack(values[k]);
    ModOfSmall(values[k], 0x200_0000);
  }

  /** Packing one more value appends its group. */
  lemma PackAllAppend(values: seq<nat>, v: nat)
    ensures PackAll(values + [v]) == PackAll(values) + Pack(v)
  {
    assert (values + [v])[..|values|] == values;
  }
}
