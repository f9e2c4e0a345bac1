/**
 * The memory dump of main.c: which frames the block loop sends, and what it writes to the output
 * file, as functions of the replies it gets. Blocks 2 to 5 are not fetched; each fetched block is
 * one block request followed by 512 requests for 32-byte chunks at offsets 0x4000 to 0x7FE0.
 */
module Dump {
  import opened Types
  import opened Framing

  const Blocks: nat := 20
  const BlockSize: nat := 0x4000
  const ChunksPerBlock: nat := 512
  /** Replies the loop reads for one fetched block: the block request's and 512 chunk replies. */
  const RepliesPerBlock: nat := 513
  /** The shortest chunk reply accepted: echo, header, 32 data bytes and checksum. */
  const MinChunkReply: nat := 53

  /** Blocks 2 to 5 are written as filler instead of read. */
  predicate Skipped(block: nat)
  {
    1 < block < 6
  }

  /** How many of the blocks before `block` are fetched from the ECU. */
  function Fetched(block: nat): nat
  {
    if block <= 2 then block else if block <= 6 then 2 else block - 4
  }

  /** request_block: selects a block by its index in the last byte. */
  function BlockRequest(block: uint8): seq<uint8>
  {
    [0x87, 0x10, 0x01, 0x36, 0x11, 0x00, 0xFE, 0x02, 0x01, block]
  }

  /** g: asks for 0x20 bytes at a 16-bit offset written big-endian at bytes 6 and 7. */
  function ChunkRequest(offset: uint16): seq<uint8>
  {
    [0x86, 0x10, 0x01, 0x36, 0x21, 0x00, offset / 0x100, offset % 0x100, 0x20]
  }

  /** The offset of the k-th chunk of a block. */
  function ChunkOffset(k: nat): nat
  {
    0x4000 + 0x20 * k
  }

  /**
   * The frames of the first k chunk requests of a block; the offsets of all 512 run up to 0x7FE0
   * and fit the 16-bit counter.
   */
  function ChunkRequests(k: nat): seq<seq<uint8>>
    requires k <= ChunksPerBlock
  {
    seq(k, j requires 0 <= j < k => Frame(ChunkRequest(ChunkOffset(j) as uint16)))
  }

  /** The frames sent for one block. */
  function BlockRequests(block: uint8): seq<seq<uint8>>
  {
    if Skipped(block as nat) then [] else [Frame(BlockRequest(block))] + ChunkRequests(ChunksPerBlock)
  }

  /** The frames sent for the first n blocks. */
  function DumpRequests(n: nat): seq<seq<uint8>>
    requires n <= Blocks
  {
    if n == 0 then [] else DumpRequests(n - 1) + BlockRequests((n - 1) as uint8)
  }

  /** The data bytes of a chunk reply: everything after the first 20 bytes but the trailing checksum. */
  function Payload(reply: seq<uint8>): seq<uint8>
  {
    if |reply| >= 21 then reply[20..|reply| - 1] else []
  }

  /** The data bytes of a run of chunk replies, in order. */
  function Payloads(replies: seq<seq<uint8>>): seq<uint8>
  {
    if replies == [] then [] else Payloads(replies[..|replies| - 1]) + Payload(replies[|replies| - 1])
  }

  /** What the file holds for a block that is not read. */
  function Filler(n: nat): seq<uint8>
  {
    seq(n, _ => 0xFF)
  }

  /** Where the replies of a fetched block start in the log of the dump's replies. */
  function BlockStart(block: nat): nat
  {
    RepliesPerBlock * Fetched(block)
  }

  /** The chunk replies of a fetched block within the log of the dump's replies. */
  function BlockChunks(log: seq<seq<uint8>>, block: nat): seq<seq<uint8>>
    requires |log| >= BlockStart(block) + RepliesPerBlock
  {
    log[BlockStart(block) + 1..BlockStart(block) + RepliesPerBlock]
  }

  /** What the file holds for block b: 0xFF filler for a skipped block, the chunk data in order otherwise. */
  function BlockImage(log: seq<seq<uint8>>, b: nat): seq<uint8>
    requires b < Blocks && |log| >= BlockStart(b + 1)
  {
    if Skipped(b) then Filler(BlockSize) else Payloads(BlockChunks(log, b))
  }

  /** The file contents after the first n blocks, given the log of replies the dump read. */
  function Image(log: seq<seq<uint8>>, n: nat): seq<uint8>
    requires n <= Blocks && |log| >= BlockStart(n)
  {
    if n == 0 then [] else Image(log, n - 1) + BlockImage(log, n - 1)
  }

  /** Every chunk reply of the first n blocks has at least m bytes. */
  predicate ChunksAtLeast(log: seq<seq<uint8>>, n: nat, m: nat)
    requires n <= Blocks && |log| >= BlockStart(n)
  {
    forall b | 0 <= b < n && !Skipped(b) :: forall r | r in BlockChunks(log, b) :: |r| >= m
  }

  /** Every chunk reply of the first n blocks has exactly m bytes. */
  predicate ChunksExactly(log: seq<seq<uint8>>, n: nat, m: nat)
    requires n <= Blocks && |log| >= BlockStart(n)
  {
    forall b | 0 <= b < n && !Skipped(b) :: forall r | r in BlockChunks(log, b) :: |r| == m
  }

  /** The chunk request carries its offset big-endian in bytes 6 and 7 and is otherwise fixed. */
  lemma ChunkRequestOffset(offset: uint16)
    ensures |ChunkRequest(offset)| == 9
    ensures ChunkRequest(offset)[6] as int * 0x100 + ChunkRequest(offset)[7] as int == offset
    ensures ChunkRequest(offset)[..6] == [0x86, 0x10, 0x01, 0x36, 0x21, 0x00] && ChunkRequest(offset)[8] == 0x20
  {
  }

  /**
   * The dump's frames go block by block in order: the frames of block b start at BlockStart(b),
   * after those of the blocks before it, and are its block request then its chunk requests.
   */
  lemma {:induction false} DumpRequestsLayout(n: nat, b: nat)
    requires b < n <= Blocks && !Skipped(b)
    ensures |DumpRequests(n)| == BlockStart(n) && BlockStart(b) + RepliesPerBlock <= BlockStart(n)
    ensures DumpRequests(n)[BlockStart(b)..BlockStart(b) + RepliesPerBlock] == BlockRequests(b as uint8)
  {
    DumpRequestsCount(n - 1);
    DumpRequestsStep(n - 1);
    var prev, last := DumpRequests(n - 1), BlockRequests((n - 1) as uint8);
    assert DumpRequests(n) == prev + last;
    if b < n - 1 {
      DumpRequestsLayout(n - 1, b);
      assert prev <= prev + last;
      PrefixSlice(prev, DumpRequests(n), BlockStart(b), BlockStart(b) + RepliesPerBlock);
    } else {
      assert |prev| == BlockStart(b) && last == BlockRequests(b as uint8);
      SuffixSlice(prev, last);
    }
  }

  /** One more block appends its frames to the dump's, and moves the start of the next block's replies past its own. */
  lemma DumpRequestsStep(n: nat)
    requires n < Blocks
    ensures DumpRequests(n + 1) == DumpRequests(n) + BlockRequests(n as uint8)
    ensures |BlockRequests(n as uint8)| == if Skipped(n) then 0 else RepliesPerBlock
    ensures BlockStart(n + 1) == BlockStart(n) + |BlockRequests(n as uint8)|
  {
  }

  /** Each fetched block sends 513 frames, the skipped blocks none. */
  lemma {:induction false} DumpRequestsCount(n: nat)
    requires n <= Blocks
    ensures |DumpRequests(n)| == BlockStart(n)
  {
    if n > 0 {
      DumpRequestsCount(n - 1);
      DumpRequestsStep(n - 1);
    }
  }

  /** The whole dump sends 16 * 513 frames. */
  lemma DumpFrameTotal()
    ensures |DumpRequests(Blocks)| == 16 * RepliesPerBlock
  {
    DumpRequestsCount(Blocks);
  }

  /** Chunk replies of at least 53 bytes give at least 32 data bytes each, and exactly 53 bytes give exactly 32. */
  lemma {:induction false} PayloadsLength(replies: seq<seq<uint8>>)
    requires forall r | r in replies :: |r| >= MinChunkReply
    ensures |Payloads(replies)| >= 32 * |replies|
    ensures (forall r | r in replies :: |r| == MinChunkReply) ==> |Payloads(replies)| == 32 * |replies|
  {
    if replies != [] {
      var init := replies[..|replies| - 1];
      assert forall r | r in init :: r in replies;
      PayloadsLength(init);
    }
  }

  /** Adding replies to the log after the first n blocks' changes neither those blocks' image nor their chunks. */
  lemma {:induction false} ImageExtend(log: seq<seq<uint8>>, extra: seq<seq<uint8>>, n: nat)
    requires n <= Blocks && |log| >= BlockStart(n)
    ensures Image(log + extra, n) == Image(log, n)
    ensures forall b | 0 <= b < n && !Skipped(b) :: BlockChunks(log + extra, b) == BlockChunks(log, b)
  {
    if n > 0 {
      ImageExtend(log, extra, n - 1);
      if !Skipped(n - 1) {
        assert BlockChunks(log + extra, n - 1) == BlockChunks(log, n - 1);
      }
    }
  }

  /** With every chunk reply at least 53 bytes long, the first n blocks fill at least n * 0x4000 bytes. */
  lemma {:induction false} ImageAtLeast(log: seq<seq<uint8>>, n: nat)
    requires n <= Blocks && |log| >= BlockStart(n)
    requires ChunksAtLeast(log, n, MinChunkReply)
    ensures |Image(log, n)| >= BlockSize * n
  {
    if n > 0 {
      ImageAtLeast(log, n - 1);
      if !Skipped(n - 1) {
        PayloadsLength(BlockChunks(log, n - 1));
      }
    }
  }

  /** With every chunk reply exactly 53 bytes long, the first n blocks fill exactly n * 0x4000 bytes. */
  lemma {:induction false} ImageExactly(log: seq<seq<uint8>>, n: nat)
    requires n <= Blocks && |log| >= BlockStart(n)
    requires ChunksExactly(log, n, MinChunkReply)
    ensures |Image(log, n)| == BlockSize * n
  {
    if n > 0 {
      ImageExactly(log, n - 1);
      if !Skipped(n - 1) {
        PayloadsLength(BlockChunks(log, n - 1));
      }
    }
  }

  /** The image of fewer blocks is a prefix of the image of more. */
  lemma {:induction false} ImagePrefix(log: seq<seq<uint8>>, n: nat, m: nat)
    requires n <= m <= Blocks && |log| >= BlockStart(m)
    ensures Image(log, n) <= Image(log, m)
  {
    if n < m {
      ImagePrefix(log, n, m - 1);
      var prev := Image(log, m - 1);
      var block := BlockImage(log, m - 1);
      assert Image(log, m) == prev + block;
      assert prev <= prev + block;
    }
  }

  /**
   * With every chunk reply exactly 53 bytes long, the dump is 20 * 0x4000 bytes and block b sits
   * at offset b * 0x4000: 0xFF filler for blocks 2 to 5, the chunk data in order for the others.
   */
  lemma ImageLayout(log: seq<seq<uint8>>, b: nat)
    requires |log| >= BlockStart(Blocks) && b < Blocks
    requires ChunksExactly(log, Blocks, MinChunkReply)
    ensures |Image(log, Blocks)| == Blocks * BlockSize
    ensures Image(log, Blocks)[b * BlockSize..(b + 1) * BlockSize] ==
              if Skipped(b) then Filler(BlockSize) else Payloads(BlockChunks(log, b))
  {
    ImageExactly(log, Blocks);
    assert ChunksExactly(log, b + 1, MinChunkReply) && ChunksExactly(log, b, MinChunkReply);
    ImageExactly(log, b);
    ImageExactly(log, b + 1);
    assert Image(log, b + 1) == Image(log, b) + BlockImage(log, b);
    ImageBlock(log, b);
    ImagePrefix(log, b + 1, Blocks);
    var whole, part := Image(log, Blocks), Image(log, b + 1);
    PrefixSlice(part, whole, b * BlockSize, (b + 1) * BlockSize);
  }

  /** Once the first b blocks fill b * 0x4000 bytes and block b fills 0x4000, block b is the last 0x4000 bytes of the first b + 1. */
  lemma ImageBlock(log: seq<seq<uint8>>, b: nat)
    requires b < Blocks && |log| >= BlockStart(b + 1)
    requires |Image(log, b)| == b * BlockSize && |BlockImage(log, b)| == BlockSize
    ensures Image(log, b + 1)[b * BlockSize..(b + 1) * BlockSize] == BlockImage(log, b)
  {
    var prev, block := Image(log, b), BlockImage(log, b);
    assert Image(log, b + 1) == prev + block;
    SuffixSlice(prev, block);
  }

  /** The second part of a concatenation is the slice after the first. */
  lemma SuffixSlice<T>(a: seq<T>, b: seq<T>)
    ensures (a + b)[|a|..|a| + |b|] == b
  {
  }

  /** A slice of a prefix is the same slice of the whole. */
  lemma PrefixSlice<T>(p: seq<T>, w: seq<T>, i: nat, j: nat)
    requires p <= w && i <= j <= |p|
    ensures w[i..j] == p[i..j]
  {
    assert forall k | 0 <= k < j - i :: w[i..j][k] == p[i..j][k];
  }
}
