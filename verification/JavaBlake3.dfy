// The Java BLAKE3 of JavaJunitWitnessRpc.java: no incremental state, the tree
// built bottom-up with odd nodes promoted, ROOT on the last merge only.
module JavaBlake3 {
  import opened Wrappers
  import opened Blake3Tree
  import opened Blake3Chunk
  import opened Blake3Wide
  import opened Blake3Hasher

  const INT_MAX: nat := 0x7FFF_FFFF

  /** Java int arithmetic. */
  function Wrap(x: int): int {
    (x + 0x8000_0000) % 0x1_0000_0000 - 0x8000_0000
  }

  /** Division that truncates toward zero. */
  function TruncDiv(x: int, d: nat): int
    requires d > 0
  {
    if x < 0 then -(-x / d) else x / d
  }

  function Java(c: Compressor): Mode {
    Mode(c, IV, 0)
  }

  /** Reads up to 64 bytes, zero-padded. */
  method ReadBlock(data: seq<Byte>, offset: nat, len: nat) returns (block: Block)
    requires len <= 64 && offset + len <= |data|
    ensures block == Pad(data[offset..offset + len])
  {
    var words := new Byte[64](_ => 0);
    var end := if offset + len < |data| then offset + len else |data|;
    for i := offset to end
      invariant forall j :: 0 <= j < 64 ==> words[j] == if j < i - offset then data[offset + j] else 0
    {
      words[i - offset] := words[i - offset] | data[i];
      OrZero(data[i]);
    }
    block := words[..];
  }

  lemma {:induction false} OrZero(b: Byte)
    ensures 0 | b == b
  {
  }

  lemma {:induction false} FlagBits()
    ensures With(0, CHUNK_START) == CHUNK_START && With(0, 0) == 0
    ensures With(0, CHUNK_END) == CHUNK_END && With(0, PARENT) == PARENT
    ensures With(PARENT, 0) == PARENT
  {
  }

  /** Java's block count and the lazy block count of the C chunk state agree on the last block. */
  function NumBlocks(len: nat): (n: nat)
    ensures n == InnerBlocks(len) + 1
  {
    if (len + 63) / 64 > 1 then (len + 63) / 64 else 1
  }

  /** The flags of block bi out of numBlocks. */
  function BlockFlags(bi: nat, numBlocks: nat): Byte {
    var flags := 0;
    var flags := if bi == 0 then With(flags, CHUNK_START) else flags;
    if bi + 1 == numBlocks then With(flags, CHUNK_END) else flags
  }

  lemma {:induction false} LastBlockOutput(c: Compressor, chunk: seq<Byte>, counter: nat)
    requires |chunk| <= 1024
    ensures var bi := InnerBlocks(|chunk|);
            ChunkOutput(Java(c), chunk, counter) ==
            Output(BlocksCv(Java(c), chunk[..64 * bi], counter), counter, Pad(chunk[64 * bi..]), |chunk| - 64 * bi,
                   BlockFlags(bi, bi + 1))
  {
    hide With, BlocksCv;
    FlagBits();
  }

  lemma {:induction false} InnerBlockCv(c: Compressor, chunk: seq<Byte>, counter: nat, bi: nat)
    requires 64 * (bi + 1) <= |chunk|
    ensures BlocksCv(Java(c), chunk[..64 * (bi + 1)], counter)
         == c(BlocksCv(Java(c), chunk[..64 * bi], counter), Pad(chunk[64 * bi..64 * (bi + 1)]), 64, counter,
              BlockFlags(bi, bi + 2))[..32]
  {
    hide With, BlocksCv;
    FlagBits();
    var block := chunk[64 * bi..64 * (bi + 1)];
    assert block == Pad(block);
    assert chunk[..64 * bi] + block == chunk[..64 * (bi + 1)];
    InnerBlock(Java(c), chunk[..64 * bi], block, counter);
  }

  lemma {:induction false} SliceOfSlice(data: seq<Byte>, from: nat, to: nat, i: nat, j: nat)
    requires from <= to <= |data| && i <= j <= to - from
    ensures data[from..to][i..j] == data[from + i..from + j]
  {
    var part := data[from..to];
    assert |part[i..j]| == |data[from + i..from + j]|;
    assert forall k :: 0 <= k < j - i ==> part[i..j][k] == part[i + k] == data[from + i + k];
  }

  /** One chunk that is not the root. */
  method ProcessChunk(c: Compressor, data: seq<Byte>, offset: nat, chunkLen: nat, chunkCounter: nat) returns (cv: Cv)
    requires chunkLen <= 1024 && offset + chunkLen <= |data|
    ensures cv == TreeCv(Java(c), data[offset..offset + chunkLen], chunkCounter)
  {
    hide With, BlocksCv, TreeCv, Pad, BlockFlags;
    ghost var chunk := data[offset..offset + chunkLen];
    cv := IV;
    BlocksCvEmpty(Java(c), chunkCounter);
    var pos, remaining := offset, chunkLen;
    var numBlocks := NumBlocks(chunkLen);
    for bi := 0 to numBlocks
      invariant bi < numBlocks ==> 64 * bi <= chunkLen && pos == offset + 64 * bi && remaining == chunkLen - 64 * bi
      invariant if bi < numBlocks then cv == BlocksCv(Java(c), chunk[..64 * bi], chunkCounter)
                else cv == TreeCv(Java(c), chunk, chunkCounter)
    {
      var blen := if remaining < 64 then remaining else 64;
      var flags := BlockFlags(bi, numBlocks);
      var block := ReadBlock(data, pos, blen);
      SliceOfSlice(data, offset, offset + chunkLen, 64 * bi, 64 * bi + blen);
      cv := c(cv, block, blen, chunkCounter, flags)[..32];
      pos := pos + blen;
      remaining := remaining - blen;
      if bi + 1 == numBlocks {
        assert chunk[64 * bi..64 * bi + blen] == chunk[64 * bi..];
        LastBlockOutput(c, chunk, chunkCounter);
        SmallTree(Java(c), chunk, chunkCounter);
      } else {
        InnerBlockCv(c, chunk, chunkCounter, bi);
        SameFlags(bi, numBlocks);
      }
    }
  }

  lemma {:induction false} SameFlags(bi: nat, numBlocks: nat)
    requires bi + 1 < numBlocks
    ensures BlockFlags(bi, numBlocks) == BlockFlags(bi, bi + 2)
  {
  }

  /** A message of at most one chunk: its last block carries ROOT. */
  method SingleChunkRoot(c: Compressor, data: seq<Byte>) returns (out: Block)
    requires |data| <= 1024
    ensures out == RootBlock(c, TreeOutput(Java(c), data, 0), 0)
  {
    hide With, BlocksCv, TreeOutput, Pad, BlockFlags;
    var cv: Cv := IV;
    BlocksCvEmpty(Java(c), 0);
    out := Pad([]);
    var numBlocks := NumBlocks(|data|);
    var pos, remaining := 0, |data|;
    for bi := 0 to numBlocks
      invariant bi < numBlocks
      invariant 64 * bi <= |data| && pos == 64 * bi && remaining == |data| - 64 * bi
      invariant cv == BlocksCv(Java(c), data[..64 * bi], 0)
    {
      var blen := if remaining < 64 then remaining else 64;
      var last := bi + 1 == numBlocks;
      var flags := BlockFlags(bi, numBlocks);
      if last {
        flags := With(flags, ROOT);
      }
      var block := ReadBlock(data, pos, blen);
      out := c(cv, block, blen, 0, flags);
      if last {
        assert data[pos..pos + blen] == data[64 * bi..];
        LastBlockOutput(c, data, 0);
        SmallOutput(Java(c), data, 0);
        return;
      }
      cv := out[..32];
      pos := pos + blen;
      remaining := remaining - blen;
      InnerBlockCv(c, data, 0, bi);
      SameFlags(bi, numBlocks);
    }
    assert false;
  }

  /** One level up: neighbours merge, an odd node is promoted; only the merge to a single node is ROOT. */
  method MergeLevel(c: Compressor, level: array<seq<Byte>>) returns (next: array<seq<Byte>>)
    requires level.Length > 1
    requires forall i :: 0 <= i < level.Length ==> |level[i]| == 32
    ensures fresh(next) && next.Length == (level.Length + 1) / 2
    ensures next.Length > 1 ==> forall i :: 0 <= i < next.Length ==> |next[i]| == 32
    ensures next.Length > 1 ==> Row(next) == Condense(Java(c), Row(level))
    ensures next.Length == 1 ==> next[0] == RootBlock(c, ParentOutput(Java(c), level[0], level[1]), 0)
  {
    hide With, Condense;
    FlagBits();
    var newLen := (level.Length + 1) / 2;
    var isLastLevel := newLen == 1;
    next := new seq<Byte>[newLen](_ => []);
    for i := 0 to newLen
      invariant forall j :: 0 <= j < i ==> Above(c, level, j, next[j], isLastLevel)
    {
      var li, ri := 2 * i, 2 * i + 1;
      if ri >= level.Length {
        next[i] := level[li];
      } else {
        var block := level[li] + level[ri];
        var flags := With(PARENT, if isLastLevel then ROOT else 0);
        var out := c(IV, block, 64, 0, flags);
        next[i] := if isLastLevel then out else out[..32];
      }
    }
    if newLen > 1 {
      forall i | 0 <= i < newLen
        ensures next[i] == Condense(Java(c), Row(level))[i]
      {
        CondenseAt(Java(c), Row(level), i);
        assert Above(c, level, i, next[i], isLastLevel);
      }
      assert Row(next) == Condense(Java(c), Row(level));
    } else {
      assert Above(c, level, 0, next[0], isLastLevel);
    }
  }

  /** What one node of the next level holds. */
  ghost predicate Above(c: Compressor, level: array<seq<Byte>>, i: nat, node: seq<Byte>, root: bool)
    requires 2 * i < level.Length
    requires forall j :: 0 <= j < level.Length ==> |level[j]| == 32
    reads level
  {
    if 2 * i + 1 >= level.Length then node == level[2 * i]
    else if root then node == RootBlock(c, ParentOutput(Java(c), level[2 * i], level[2 * i + 1]), 0)
    else node == ParentCv(Java(c), level[2 * i], level[2 * i + 1])
  }

  ghost function Row(level: array<seq<Byte>>): seq<Cv>
    requires forall i :: 0 <= i < level.Length ==> |level[i]| == 32
    reads level
  {
    seq(level.Length, i requires 0 <= i < level.Length reads level => level[i])
  }

  /** The 64 output bytes, or the exception thrown when the int chunk count has wrapped below zero. */
  method Blake3Xof64(c: Compressor, input: seq<Byte>) returns (result: Option<Block>)
    requires |input| <= INT_MAX
    ensures result.Some? <==> |input| + 1023 <= INT_MAX
    ensures result.Some? ==> result.value == RootBlock(c, TreeOutput(Java(c), input, 0), 0)
  {
    if |input| <= 1024 {
      var out := SingleChunkRoot(c, input);
      return Some(out);
    }
    var numChunks := TruncDiv(Wrap(Wrap(|input| + 1024) - 1), 1024);
    if numChunks < 0 {
      return None;  // NegativeArraySizeException
    }
    var level := ChunkLevel(c, input, numChunks);
    var words := MergeAll(c, input, level);
    return Some(words);
  }

  method ChunkLevel(c: Compressor, input: seq<Byte>, numChunks: nat) returns (level: array<seq<Byte>>)
    requires |input| > 1024 && numChunks == (|input| + 1023) / 1024
    ensures fresh(level) && forall i :: 0 <= i < level.Length ==> |level[i]| == 32
    ensures Row(level) == Leaves(Java(c), input, 0)
  {
    hide TreeCv;
    var m := Java(c);
    level := new seq<Byte>[numChunks](_ => []);
    for i := 0 to numChunks
      invariant forall j :: 0 <= j < i ==> |level[j]| == 32 && level[j] == Leaves(m, input, 0)[j]
    {
      var off := i * 1024;
      var clen := if |input| - off < 1024 then |input| - off else 1024;
      var cv := ProcessChunk(c, input, off, clen, i);
      LeavesAt(m, input, 0, i);
      level[i] := cv;
    }
    assert Row(level) == Leaves(m, input, 0);
  }

  method MergeAll(c: Compressor, ghost input: seq<Byte>, chunks: array<seq<Byte>>) returns (words: Block)
    requires |input| > 1024 && forall i :: 0 <= i < chunks.Length ==> |chunks[i]| == 32
    requires Row(chunks) == Leaves(Java(c), input, 0)
    ensures words == RootBlock(c, TreeOutput(Java(c), input, 0), 0)
  {
    hide TreeOutput, TreeCv, Leaves, Condense, Merkle, TopPair, ParentOutput, RootBlock;
    ghost var m := Java(c);
    var level := chunks;
    TreeIsTopPair(m, input, 0);
    assert |Leaves(m, input, 0)| >= 2;
    while level.Length > 1
      invariant level.Length >= 1
      invariant level.Length > 1 ==> forall i :: 0 <= i < level.Length ==> |level[i]| == 32
      invariant level.Length > 1 ==>
                  ParentOutput(m, TopPair(m, Row(level)).0, TopPair(m, Row(level)).1) == TreeOutput(m, input, 0)
      invariant level.Length == 1 ==> level[0] == RootBlock(c, TreeOutput(m, input, 0), 0)
      decreases level.Length
    {
      if level.Length == 2 {
        LastTwo(m, level[0], level[1]);
        assert Row(level) == [level[0], level[1]];
      } else {
        CondenseTopPair(m, Row(level));
      }
      level := MergeLevel(c, level);
    }
    words := level[0];
  }
}
