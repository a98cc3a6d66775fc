/**
  Outgoing message buffers. A buffer handed to callers is a pointer into a
  heap block that starts with room for the header, so that the sender can
  stamp the header in place just before the payload.
*/
module MsgBuffers {
  import opened Flexdp

  /** A pointer: a heap block and a byte offset into it. */
  datatype MsgPtr = MsgPtr(block: array<byte>, offset: nat)

  /** The header's `size` field, stored at the start of a message block. */
  function SizeFieldOf(block: array<byte>): uint32
    reads block
    requires block.Length >= HEADER_SIZE
  {
    DecodeU32(block[..4])
  }

  /**
    What getMsgBuffer hands out: a pointer HEADER_SIZE bytes into its block,
    and a block long enough for the header and the payload its size field
    declares.
  */
  ghost predicate IsMsgBuffer(p: MsgPtr)
    reads p.block
  {
    p.offset == HEADER_SIZE && p.block.Length >= HEADER_SIZE
    && HEADER_SIZE + SizeFieldOf(p.block) as int <= p.block.Length
  }

  /**
    getMsgBuffer: allocates `size + HEADER_SIZE` bytes, writes `size` into the
    header's 32-bit size field (a size_t stored into a uint32_t, so it is
    truncated), and returns the address HEADER_SIZE bytes past the start.
    g_malloc aborts rather than return NULL, so the NULL branch is not taken.
    Like g_malloc, the model promises nothing about the other bytes.
  */
  method GetMsgBuffer(size: nat) returns (p: MsgPtr)
    ensures fresh(p.block)
    ensures p.block.Length == size + HEADER_SIZE
    ensures p.offset == HEADER_SIZE
    ensures SizeFieldOf(p.block) == (size % 0x1_0000_0000) as uint32
    ensures IsMsgBuffer(p)
  {
    var block := new byte[size + HEADER_SIZE];
    var field := EncodeU32((size % 0x1_0000_0000) as uint32);
    block[0], block[1], block[2], block[3] := field[0], field[1], field[2], field[3];
    assert block[..4] == field;
    DecodeEncodeU32((size % 0x1_0000_0000) as uint32);
    p := MsgPtr(block, HEADER_SIZE);
  }

  /** deleteMsgBuffer: the address actually released, HEADER_SIZE bytes before the one given. */
  function AllocationStart(p: MsgPtr): MsgPtr
    requires p.offset >= HEADER_SIZE
  {
    MsgPtr(p.block, p.offset - HEADER_SIZE)
  }

  /** Deleting a buffer from getMsgBuffer releases its block from its first byte. */
  lemma DeleteReleasesAllocation(p: MsgPtr)
    requires IsMsgBuffer(p)
    ensures AllocationStart(p).block == p.block && AllocationStart(p).offset == 0
  {
  }
}
