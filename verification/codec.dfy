/**
  The byte frames of a register access.

  A register access is one transfer: a command byte naming the register and
  the direction, followed by the register value, most significant byte
  first. `WriteFrame` and `ReadRequest` build the bytes the driver sends,
  `BigEndian` turns the bytes it receives back into a value; the two
  round-trip lemmas state that the encoding and the decoding are inverse.
  `BuildWriteFrame` and `AssembleReply` are the driver's own loops, proved
  to compute the same frames and values.
 */
module Codec {
  import opened Bits
  import opened Fields
  import opened RegisterMap

  /** 256^n */
  function Pow256(n: nat): (r: nat)
    ensures r >= 1
  {
    if n == 0 then 1 else 256 * Pow256(n - 1)
  }

  lemma Pow256Table()
    ensures Pow256(1) == 0x100 && Pow256(2) == 0x1_0000
    ensures Pow256(3) == 0x100_0000 && Pow256(4) == TWO_32
  {
    assert Pow256(1) == 0x100;
    assert Pow256(2) == 0x1_0000;
    assert Pow256(3) == 0x100_0000;
  }

  /** A three-byte register holds exactly the values below 2^24. */
  lemma ThreeBytes()
    ensures Pow256(3) == Pow2(24) == 0x100_0000
  {
    Pow256Table();
    Pow2Table();
  }

  lemma {:induction false} Pow256Monotone(a: nat, b: nat)
    requires a <= b
    ensures Pow256(a) <= Pow256(b)
  {
    if a < b {
      Pow256Monotone(a, b - 1);
    }
  }

  /** The command byte that writes register `addr`. */
  function WriteCommand(addr: u8): (c: u8)
    ensures COMM_ADDR.Get(c) == addr % 8
    ensures c / 0x40 == 0 && c % 8 == 0
  {
    CommandByte(0, addr);
    BitOr(COMM_WRITE, COMM_ADDR.Place(addr))
  }

  /** The command byte that reads register `addr`. */
  function ReadCommand(addr: u8): (c: u8)
    ensures COMM_ADDR.Get(c) == addr % 8
    ensures c / 0x40 == 1 && c % 8 == 0
  {
    CommandByte(1, addr);
    BitOr(COMM_READ, COMM_ADDR.Place(addr))
  }

  /** The direction bit and the address field of a command byte do not overlap. */
  lemma CommandByte(rw: nat, addr: u8)
    requires rw <= 1
    ensures var c := BitOr(rw * 0x40, COMM_ADDR.Place(addr));
      && c == rw * 0x40 + (addr % 8) * 8
      && COMM_ADDR.Get(c) == addr % 8 && c / 0x40 == rw && c % 8 == 0
  {
    var a := addr % 8;
    assert COMM_ADDR.Place(addr) == a * 8 && Pow2(6) == 64 by {
      FieldWeights();
      Pow2Table();
    }
    assert (rw * 0x40) % 64 == 0 by {
      DivModUnique(rw * 0x40, 64, rw, 0);
    }
    OrOfSeparated(rw * 0x40, a * 8, 6);
    JoinDigits(rw, a, 0, 8, 8);
  }

  /**
    Byte `k` of `v` counted from the least significant: the byte at offset
    `k` of a 32-bit `unsigned long` in the memory of a little-endian host.
   */
  function ByteOf(v: nat, k: nat): u8
  {
    (v / Pow256(k)) % 256
  }

  /** The low `n` bytes of `v`, most significant first. */
  function BigEndianBytes(v: nat, n: nat): (s: seq<u8>)
    ensures |s| == n
  {
    if n == 0 then [] else BigEndianBytes(v / 256, n - 1) + [v % 256]
  }

  /** The value of a byte string read most significant byte first. */
  function BigEndian(s: seq<u8>): (v: nat)
    ensures v < Pow256(|s|)
  {
    if |s| == 0 then 0
    else
      var p := BigEndian(s[..|s| - 1]);
      assert p * 256 + s[|s| - 1] < Pow256(|s|) by {
        NextMultiple(p, Pow256(|s| - 1), 256);
      }
      p * 256 + s[|s| - 1]
  }

  /** Entry `i` of the big-endian encoding is byte `n - 1 - i` of the value. */
  lemma {:induction false} BigEndianBytesAt(v: nat, n: nat, i: nat)
    requires i < n
    ensures BigEndianBytes(v, n)[i] == ByteOf(v, n - 1 - i)
  {
    if i < n - 1 {
      BigEndianBytesAt(v / 256, n - 1, i);
      DivDiv(v, 256, Pow256(n - 2 - i));
    }
  }

  /** Decoding an encoding gives back the value reduced to `n` bytes. */
  lemma {:induction false} DecodeEncode(v: nat, n: nat)
    ensures BigEndian(BigEndianBytes(v, n)) == v % Pow256(n)
  {
    if n > 0 {
      var s := BigEndianBytes(v, n);
      assert s[..n - 1] == BigEndianBytes(v / 256, n - 1);
      DecodeEncode(v / 256, n - 1);
      var p := Pow256(n - 1);
      DivMod(v, 256, p);
      ModMod(v, 256, p);
      var r := v % (256 * p);
      assert r == (r / 256) * 256 + r % 256;
    }
  }

  /** Encoding a decoded byte string gives back the byte string. */
  lemma {:induction false} EncodeDecode(s: seq<u8>)
    ensures BigEndianBytes(BigEndian(s), |s|) == s
  {
    if |s| > 0 {
      var n := |s|;
      var init, x := s[..n - 1], s[n - 1];
      DivModUnique(BigEndian(s), 256, BigEndian(init), x);
      EncodeDecode(init);
      assert s == init + [x];
    }
  }

  /** The bytes of a register write: the command, then `n` value bytes, most significant first. */
  function WriteFrame(addr: u8, v: u32, n: nat): (frame: seq<u8>)
    requires n <= 4
    ensures |frame| == n + 1 && frame[0] == WriteCommand(addr)
    ensures forall i :: 1 <= i <= n ==> frame[i] == ByteOf(v, n - i)
    ensures BigEndian(frame[1..]) == v % Pow256(n)
  {
    var frame := [WriteCommand(addr)] + BigEndianBytes(v, n);
    assert forall i :: 1 <= i <= n ==> frame[i] == ByteOf(v, n - i) by {
      forall i | 1 <= i <= n
        ensures frame[i] == ByteOf(v, n - i)
      {
        BigEndianBytesAt(v, n, i - 1);
      }
    }
    assert frame[1..] == BigEndianBytes(v, n);
    DecodeEncode(v, n);
    frame
  }

  /** Bit `j` of a frame in the order it is shifted out, most significant bit of each byte first. */
  function BitAt(frame: seq<u8>, j: nat): nat
    requires j < 8 * |frame|
  {
    (frame[j / 8] / Pow2(7 - j % 8)) % 2
  }

  /** The bytes sent to read `n` bytes of register `addr`: the command, then zeros. */
  function ReadRequest(addr: u8, n: nat): (request: seq<u8>)
    ensures |request| == n + 1 && request[0] == ReadCommand(addr)
    ensures forall i :: 1 <= i <= n ==> request[i] == 0
  {
    [ReadCommand(addr)] + seq(n, _ => 0)
  }

  /**
    The driver's write loop: it walks the value's bytes from the lowest
    address up and stores them from the end of the frame down.
   */
  method BuildWriteFrame(addr: u8, v: u32, n: u8) returns (frame: seq<u8>)
    requires n <= 4
    ensures frame == WriteFrame(addr, v, n)
  {
    var command: seq<u8> := [WriteCommand(addr), 0, 0, 0, 0];
    var offset: nat := 0;
    var bytesNr: nat := n;
    while bytesNr > 0
      invariant bytesNr + offset == n
      invariant |command| == 5 && command[0] == WriteCommand(addr)
      invariant forall i :: bytesNr < i <= n ==> command[i] == ByteOf(v, n - i)
    {
      command := command[bytesNr := ByteOf(v, offset)];
      offset := offset + 1;
      bytesNr := bytesNr - 1;
    }
    frame := command[..n + 1];
  }

  /**
    The driver's read loop: shift the 32-bit buffer left by a byte and add
    the next reply byte. The wrap-around of the shift is written out; for
    at most four bytes it never takes effect.
   */
  method AssembleReply(reply: seq<u8>, n: u8) returns (buffer: u32)
    requires n <= 4 && |reply| == n + 1
    ensures buffer == BigEndian(reply[1..])
  {
    Pow256Table();
    buffer := 0;
    var i: nat := 1;
    while i < n + 1
      invariant 1 <= i <= n + 1
      invariant buffer == BigEndian(reply[1..i])
    {
      var next := reply[1..i + 1];
      assert next[..|next| - 1] == reply[1..i];
      Pow256Monotone(i, 4);
      buffer := (buffer * 256 + reply[i]) % TWO_32;
      i := i + 1;
    }
    assert reply[1..i] == reply[1..];
  }
}
