/**
  The wire-level vocabulary shared by the client and the flexVDI guest agent:
  the fixed-size message header and its byte encoding, the capability bit set
  carried by a capabilities message, and the protocol constants.

  The definitions of these live in flexdp.h, which is not part of this model.
  This module fixes what the port code relies on:
  - a header is two 32-bit words, `size` then `type`, each sent least
    significant byte first;
  - the host is little-endian too, so the byte-order normalisation done by
    the marshall and unmarshall routines leave the bytes as they are;
  - the numeric constants (message type codes, the maximum length and type,
    the printing capability index, the size of a reset message) are not fixed
    here: they are the fields of a `Protocol` value, and the model relies only
    on what `Protocol.Valid` states about them.
*/
module Flexdp {

  newtype byte = x: int | 0 <= x < 0x100
  newtype uint32 = x: int | 0 <= x < 0x1_0000_0000

  /** FlexVDIMessageHeader: `size` counts the payload only, not the header. */
  datatype Header = Header(size: uint32, msgType: uint32)

  /** sizeof(FlexVDIMessageHeader) */
  const HEADER_SIZE: nat := 8

  /** A 32-bit word as four bytes, least significant first. */
  function EncodeU32(x: uint32): (b: seq<byte>)
    ensures |b| == 4
  {
    var x1 := x / 0x100;
    var x2 := x1 / 0x100;
    [(x % 0x100) as byte, (x1 % 0x100) as byte, (x2 % 0x100) as byte, (x2 / 0x100) as byte]
  }

  function DecodeU32(b: seq<byte>): uint32
    requires |b| == 4
  {
    (b[0] as int + 0x100 * (b[1] as int) + 0x1_0000 * (b[2] as int) + 0x100_0000 * (b[3] as int)) as uint32
  }

  /** Splitting off the least significant byte: a = a % 256 + 256 * (a / 256). */
  lemma DivMod256(a: int, q: int)
    requires 0 <= a < 0x100
    ensures (a + 0x100 * q) % 0x100 == a && (a + 0x100 * q) / 0x100 == q
  {
  }

  lemma DecodeEncodeU32(x: uint32)
    ensures DecodeU32(EncodeU32(x)) == x
  {
    var x0 := x as int;
    var x1 := x0 / 0x100;
    var x2 := x1 / 0x100;
    assert x0 == x0 % 0x100 + 0x100 * x1;
    assert x1 == x1 % 0x100 + 0x100 * x2;
    assert x2 == x2 % 0x100 + 0x100 * (x2 / 0x100);
  }

  lemma EncodeDecodeU32(b: seq<byte>)
    requires |b| == 4
    ensures EncodeU32(DecodeU32(b)) == b
  {
    var b0, b1, b2, b3 := b[0] as int, b[1] as int, b[2] as int, b[3] as int;
    var x := DecodeU32(b) as int;
    assert x == b0 + 0x100 * (b1 + 0x100 * (b2 + 0x100 * b3));
    DivMod256(b0, b1 + 0x100 * (b2 + 0x100 * b3));
    DivMod256(b1, b2 + 0x100 * b3);
    DivMod256(b2, b3);
  }

  /** marshallHeader: the header as the bytes that go on the wire. */
  function EncodeHeader(h: Header): (b: seq<byte>)
    ensures |b| == HEADER_SIZE
  {
    EncodeU32(h.size) + EncodeU32(h.msgType)
  }

  /** The header read from the first bytes of a frame, then unmarshallHeader. */
  function DecodeHeader(b: seq<byte>): Header
    requires |b| == HEADER_SIZE
  {
    Header(DecodeU32(b[..4]), DecodeU32(b[4..]))
  }

  lemma DecodeEncodeHeader(h: Header)
    ensures DecodeHeader(EncodeHeader(h)) == h
  {
    var b := EncodeHeader(h);
    assert b[..4] == EncodeU32(h.size);
    assert b[4..] == EncodeU32(h.msgType);
    DecodeEncodeU32(h.size);
    DecodeEncodeU32(h.msgType);
  }

  lemma EncodeDecodeHeader(b: seq<byte>)
    requires |b| == HEADER_SIZE
    ensures EncodeHeader(DecodeHeader(b)) == b
  {
    EncodeDecodeU32(b[..4]);
    EncodeDecodeU32(b[4..]);
    assert b == b[..4] + b[4..];
  }

  // ---------------------------------------------------------------------------
  // Capability set: FlexVDICapabilitiesMsg is `uint32_t caps[4]`, 128 bits.
  // It is kept as its 16 bytes in memory, so that replacing it is a plain copy
  // of a payload; with little-endian words, bit i of word i / 32 is bit i % 8
  // of byte i / 8.

  const CAPS_MSG_SIZE: nat := 16
  const CAPABILITY_COUNT: nat := 128

  /** All four capability words zero. */
  const NO_CAPABILITIES: seq<byte> := [0, 0, 0, 0, 0, 0, 0, 0, 0, 0, 0, 0, 0, 0, 0, 0]

  function Pow2(k: nat): (r: nat)
    ensures r >= 1
  {
    if k == 0 then 1 else 2 * Pow2(k - 1)
  }

  /** Bit k of b, counting from the least significant bit. */
  predicate BitSet(b: nat, k: nat)
    decreases k
  {
    if k == 0 then b % 2 == 1 else BitSet(b / 2, k - 1)
  }

  /** Adding 2^k to a number whose bit k is clear sets bit k and no other. */
  lemma {:induction false} AddBit(b: nat, k: nat, j: nat)
    requires !BitSet(b, k)
    ensures BitSet(b + Pow2(k), j) == (j == k || BitSet(b, j))
    decreases k
  {
    if k == 0 {
      if j > 0 { assert (b + 1) / 2 == b / 2; }
    } else {
      assert (b + Pow2(k)) / 2 == b / 2 + Pow2(k - 1);
      if j > 0 { AddBit(b / 2, k - 1, j - 1); }
    }
  }

  /** Setting a clear bit below bit n keeps a number below 2^n. */
  lemma {:induction false} AddBitBound(b: nat, k: nat, n: nat)
    requires k < n && b < Pow2(n) && !BitSet(b, k)
    ensures b + Pow2(k) < Pow2(n)
    decreases k
  {
    assert Pow2(n) == 2 * Pow2(n - 1);
    if k == 0 {
      assert b % 2 == 0;
    } else {
      assert b / 2 < Pow2(n - 1);
      AddBitBound(b / 2, k - 1, n - 1);
      assert b + Pow2(k) == 2 * (b / 2 + Pow2(k - 1)) + b % 2;
    }
  }

  lemma {:induction false} NoBitOfZero(k: nat)
    ensures !BitSet(0, k)
    decreases k
  {
    if k > 0 { NoBitOfZero(k - 1); }
  }

  function SetBit(b: byte, k: nat): (r: byte)
    requires k < 8
  {
    if BitSet(b as nat, k) then b
    else
      assert Pow2(8) == 0x100;
      AddBitBound(b as nat, k, 8);
      (b as nat + Pow2(k)) as byte
  }

  lemma SetBitSpec(b: byte, k: nat, j: nat)
    requires k < 8
    ensures BitSet(SetBit(b, k) as nat, j) == (j == k || BitSet(b as nat, j))
  {
    if !BitSet(b as nat, k) {
      AddBit(b as nat, k, j);
    }
  }

  /** supportsCapability: false for an index outside the set. */
  predicate Supports(caps: seq<byte>, cap: int)
    requires |caps| == CAPS_MSG_SIZE
  {
    0 <= cap < CAPABILITY_COUNT && BitSet(caps[cap / 8] as nat, cap % 8)
  }

  /** setCapability: sets one bit in place; an index outside the set changes nothing. */
  function SetCapability(caps: seq<byte>, cap: int): (r: seq<byte>)
    requires |caps| == CAPS_MSG_SIZE
    ensures |r| == CAPS_MSG_SIZE
  {
    if 0 <= cap < CAPABILITY_COUNT then caps[cap / 8 := SetBit(caps[cap / 8], cap % 8)] else caps
  }

  /** Setting a capability adds exactly that capability to what is supported. */
  lemma SupportsAfterSet(caps: seq<byte>, cap: int, c: int)
    requires |caps| == CAPS_MSG_SIZE
    ensures Supports(SetCapability(caps, cap), c)
            == ((0 <= cap < CAPABILITY_COUNT && c == cap) || Supports(caps, c))
  {
    if 0 <= cap < CAPABILITY_COUNT && 0 <= c < CAPABILITY_COUNT && c / 8 == cap / 8 {
      SetBitSpec(caps[cap / 8], cap % 8, c % 8);
    }
  }

  lemma NothingSupported(c: int)
    ensures !Supports(NO_CAPABILITIES, c)
  {
    if 0 <= c < CAPABILITY_COUNT {
      NoBitOfZero(c % 8);
    }
  }

  /** A set built from nothing but one capability supports that one alone. */
  lemma OnlyCapability(cap: int, c: int)
    requires 0 <= cap < CAPABILITY_COUNT
    ensures Supports(SetCapability(NO_CAPABILITIES, cap), c) <==> c == cap
  {
    SupportsAfterSet(NO_CAPABILITIES, cap, c);
    NothingSupported(c);
  }

  // ---------------------------------------------------------------------------
  // Protocol constants and the per-type payload check.

  /**
    The constants of flexdp.h, and the part of unmarshallMessage that depends
    on message layouts not shown here (`accepts`).
  */
  datatype Protocol = Protocol(
    maxMessageLength: nat,            // FLEXVDI_MAX_MESSAGE_LENGTH
    maxMessageType: nat,              // FLEXVDI_MAX_MESSAGE_TYPE
    resetType: uint32,                // FLEXVDI_RESET
    capabilitiesType: uint32,         // FLEXVDI_CAPABILITIES
    printJobType: uint32,             // FLEXVDI_PRINTJOB
    printJobDataType: uint32,         // FLEXVDI_PRINTJOBDATA
    capPrinting: nat,                 // FLEXVDI_CAP_PRINTING
    resetMsgSize: nat,                // sizeof(FlexVDIResetMsg)
    accepts: (uint32, seq<byte>) -> bool)
  {
    /** The message types are distinct codes below the maximum type. */
    predicate Valid() {
      && resetType as int < maxMessageType
      && capabilitiesType as int < maxMessageType
      && printJobType as int < maxMessageType
      && printJobDataType as int < maxMessageType
      && resetType != capabilitiesType && resetType != printJobType && resetType != printJobDataType
      && capabilitiesType != printJobType && capabilitiesType != printJobDataType
      && printJobType != printJobDataType
      && capPrinting < CAPABILITY_COUNT
      && resetMsgSize < 0x1_0000_0000
    }

    /** The two checks a received header must pass before its body is read. */
    predicate HeaderAcceptable(h: Header) {
      h.size as int <= maxMessageLength && (h.msgType as int) < maxMessageType
    }

    /**
      unmarshallMessage's verdict on a received payload: the capabilities
      message is fixed-size, every type is subject to `accepts`.
    */
    predicate Unmarshall(msgType: uint32, payload: seq<byte>) {
      (msgType == capabilitiesType ==> |payload| == CAPS_MSG_SIZE) && accepts(msgType, payload)
    }
  }

  /** The protocols the port works with: constants that satisfy `Valid`. */
  type ValidProtocol = p: Protocol | p.Valid()
    witness Protocol(0, 4, 0, 1, 2, 3, 0, 0, (t: uint32, m: seq<byte>) => true)
}
