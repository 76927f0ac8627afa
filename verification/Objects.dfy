/** The records of pkg/types/buffer.go as heap objects, and the device. */
module Objects {
  /** Block types (pkg/types/constants.go). INODE, DIRA, XATTR and DEVT requests
      are stored in META blocks. */
  const DATA := 0
  const META := 1
  const INODE := 2
  const DIRA := 3
  const XATTR := 4
  const DEVT := 5

  /** The address of a buffer block that is not mapped yet. */
  const NULL_ADDR: nat := 0xFFFF_FFFF
  const NULL_ADDR_UL: nat := 0xFFFF_FFFF_FFFF_FFFF

  const EBUSY := 16
  const EINVAL := 22

  type byte = x: nat | x < 256

  /** What a buffer head does when its block is flushed. `SkipWrite` is the
      shared `SkipWriteOps`, which keeps the block; `Busy` is `SkipWriteBhops`,
      whose flush fails with EBUSY; `NoOp` is a nil pointer. */
  datatype HeadOp = NoOp | SkipWrite | DropDirectly | Busy

  class BufferHead {
    var Off: nat
    var Block: BufferBlock?
    var Op: HeadOp

    constructor ()
      ensures Off == 0 && Block == null && Op == NoOp
    {
      Off := 0;
      Block := null;
      Op := NoOp;
    }
  }

  /** `Off` and `Heads` are the offset and the list of the embedded head
      `Buffers` of the source. */
  class BufferBlock {
    var BlkAddr: nat
    var Type: int
    var Off: nat
    var Heads: seq<BufferHead>

    constructor (typ: int)
      ensures BlkAddr == 0xFFFF_FFFF && Type == typ && Off == 0 && Heads == []
    {
      Type := typ;
      BlkAddr := NULL_ADDR;
      Off := 0;
      Heads := [];
    }
  }

  /** The device after a complete write of `data` at `pos`; a gap reads as zero. */
  function Pwrite(dev: seq<byte>, pos: nat, data: seq<byte>): (r: seq<byte>)
    ensures |r| == if pos + |data| > |dev| then pos + |data| else |dev|
    ensures forall x :: 0 <= x < |r| ==>
      r[x] == if pos <= x < pos + |data| then data[x - pos] else if x < |dev| then dev[x] else 0
  {
    var n := if pos + |data| > |dev| then pos + |data| else |dev|;
    seq(n, x requires 0 <= x < n =>
      if pos <= x < pos + |data| then data[x - pos] else if x < |dev| then dev[x] else 0)
  }

  function Zeros(n: nat): seq<byte> { seq(n, _ => 0) }
}
