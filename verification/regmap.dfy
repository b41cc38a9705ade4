/**
  The AD7190 register map: register addresses, the communications-register
  command bits, the bit fields of the mode and configuration registers and
  the codes written into them.

  The driver takes these from its header, which is not part of this model;
  the values below are those of the AD7190 data sheet register map. Each
  field macro of the header, `FIELD(x) = (x & (2^width - 1)) << shift`, is
  the `Place` of a `Field`; each single-bit flag macro is the `Unit` of a
  one-bit field. `LayoutsAreDisjoint` proves that the fields of each
  register are pairwise disjoint and lie inside its 24 bits.
 */
module RegisterMap {
  import opened Bits
  import opened Fields

  // Communications register: read/write flag and register address.
  const COMM_WRITE: u8 := 0x00
  const COMM_READ: u8 := 0x40
  const COMM_ADDR: Field := Field(3, 3)

  // Register addresses.
  const REG_MODE: u8 := 1
  const REG_CONF: u8 := 2
  const REG_DATA: u8 := 3
  const REG_ID: u8 := 4

  /** Bus selector of the converter; the bus layer leaves chip select alone for selector 0. */
  const SLAVE_ID: nat := 1

  /** The identity byte the driver accepts. */
  const EXPECTED_ID: u8 := 0xA6

  // Mode register fields.
  const MODE_SEL: Field := Field(21, 3)
  const MODE_DAT_STA: Field := Field(20, 1)
  const MODE_CLKSRC: Field := Field(18, 2)
  const MODE_SINC3: Field := Field(15, 1)
  const MODE_ENPAR: Field := Field(13, 1)
  const MODE_SCYCLE: Field := Field(11, 1)
  const MODE_REJ60: Field := Field(10, 1)
  const MODE_RATE: Field := Field(0, 10)

  const MODE_LAYOUT: seq<Field> :=
    [MODE_SEL, MODE_DAT_STA, MODE_CLKSRC, MODE_SINC3, MODE_ENPAR, MODE_SCYCLE, MODE_REJ60, MODE_RATE]

  // Operating-mode codes of MODE_SEL.
  const MODE_CONT: nat := 0
  const MODE_SINGLE: nat := 1
  const MODE_IDLE: nat := 2
  const MODE_PWRDN: nat := 3

  /** Clock-source code for an external clock on MCLK2. */
  const CLK_EXT_MCLK2: nat := 1

  // Configuration register fields.
  const CONF_CHOP: Field := Field(23, 1)
  const CONF_REFSEL: Field := Field(20, 1)
  const CONF_CHAN: Field := Field(8, 8)
  const CONF_BURN: Field := Field(7, 1)
  const CONF_REFDET: Field := Field(6, 1)
  const CONF_BUF: Field := Field(4, 1)
  const CONF_UNIPOLAR: Field := Field(3, 1)
  const CONF_GAIN: Field := Field(0, 3)

  // Single-bit masks of the configuration register, as the header writes them.
  const CONF_UNIPOLAR_MASK: nat := 0x8
  const CONF_CHOP_MASK: nat := 0x80_0000

  const CONF_LAYOUT: seq<Field> :=
    [CONF_CHOP, CONF_REFSEL, CONF_CHAN, CONF_BURN, CONF_REFDET, CONF_BUF, CONF_UNIPOLAR, CONF_GAIN]

  /** Channel number of the on-chip temperature sensor. */
  const CH_TEMP_SENSOR: nat := 2

  /** Gain code for a gain of 1. */
  const CONF_GAIN_1: nat := 0

  /** Every field of both layouts fits the 24-bit registers and no two overlap. */
  lemma LayoutsAreDisjoint()
    ensures PairwiseDisjoint(MODE_LAYOUT) && PairwiseDisjoint(CONF_LAYOUT)
    ensures forall i :: 0 <= i < |MODE_LAYOUT| ==> MODE_LAYOUT[i].Top() <= 24
    ensures forall i :: 0 <= i < |CONF_LAYOUT| ==> CONF_LAYOUT[i].Top() <= 24
  {}

  /** The weights of the fields the driver places, as the header writes them. */
  lemma FieldWeights()
    ensures COMM_ADDR.Unit() == 8 && COMM_ADDR.Span() == 8
    ensures MODE_SEL.Unit() == 0x20_0000 && MODE_SEL.Span() == 8
    ensures MODE_CLKSRC.Unit() == 0x4_0000 && MODE_CLKSRC.Span() == 4
    ensures MODE_SINC3.Unit() == 0x8000 && MODE_SCYCLE.Unit() == 0x800
    ensures MODE_REJ60.Unit() == 0x400 && MODE_RATE.Unit() == 1
    ensures MODE_RATE.Span() == 0x400
    ensures CONF_CHOP.Unit() == 0x80_0000 && CONF_CHAN.Unit() == 0x100
    ensures CONF_CHAN.Span() == 0x100 && CONF_UNIPOLAR.Unit() == 8
    ensures CONF_GAIN.Unit() == 1 && CONF_GAIN.Span() == 8
    ensures Pow2(24) == 0x100_0000
    ensures CONF_UNIPOLAR.Place(1) == CONF_UNIPOLAR_MASK && CONF_CHOP.Place(1) == CONF_CHOP_MASK
  {
    Pow2Table();
  }
}
