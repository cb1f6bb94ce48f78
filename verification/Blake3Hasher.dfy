// The incremental hasher of blake3.c: update takes input of any size, finalize
// reads any slice of the extendable output.
module Blake3Hasher {
  import opened Bits
  import opened Blake3Tree
  import opened Blake3Chunk
  import opened Blake3Wide
  import opened Blake3Stack
  import Blake3Compress

  const KEYED_HASH: Byte := 16
  const DERIVE_KEY_CONTEXT: Byte := 32
  const DERIVE_KEY_MATERIAL: Byte := 64

  /** The eight initial words, stored little-endian. */
  const IV: Cv := [
    0x67, 0xE6, 0x09, 0x6A, 0x85, 0xAE, 0x67, 0xBB, 0x72, 0xF3, 0x6E, 0x3C, 0x3A, 0xF5, 0x4F, 0xA5,
    0x7F, 0x52, 0x0E, 0x51, 0x8C, 0x68, 0x05, 0x9B, 0xAB, 0xD9, 0x83, 0x1F, 0x19, 0xCD, 0xE0, 0x5B]

  // The words stored least byte first are those the compression function starts from.
  lemma {:induction false} InitialWords(i: nat)
    requires i < 8
    ensures (IV[4 * i] as bv32) | (IV[4 * i + 1] as bv32 << 8) | (IV[4 * i + 2] as bv32 << 16)
              | (IV[4 * i + 3] as bv32 << 24) == Blake3Compress.IV[i]
  {
    if i == 0 {
    } else if i == 1 {
    } else if i == 2 {
    } else if i == 3 {
    } else if i == 4 {
    } else if i == 5 {
    } else if i == 6 {
    } else {
    }
  }

  /** Fills out[off..] with `blocks` consecutive root blocks. */
  method XofMany(c: Compressor, o: Output, counter: nat, out: array<Byte>, off: nat, blocks: nat)
    requires off + 64 * blocks <= out.Length
    modifies out
    ensures forall i :: off <= i < off + 64 * blocks ==> out[i] == StreamByte(c, o, 64 * counter + (i - off))
    ensures forall j :: 0 <= j < out.Length && !(off <= j < off + 64 * blocks) ==> out[j] == old(out[j])
  {
    hide RootBlock;
    for n := 0 to blocks
      invariant forall i :: off <= i < off + 64 * n ==> out[i] == StreamByte(c, o, 64 * counter + (i - off))
      invariant forall j :: 0 <= j < out.Length && !(off <= j < off + 64 * n) ==> out[j] == old(out[j])
    {
      CopyBlock(c, o, counter + n, out, off + 64 * n, 0, 64);
    }
  }

  /** Copies `len` bytes of one root block, from byte `skip` of it. */
  method CopyBlock(c: Compressor, o: Output, counter: nat, out: array<Byte>, off: nat, skip: nat, len: nat)
    requires skip + len <= 64 && off + len <= out.Length
    modifies out
    ensures forall i :: off <= i < off + len ==> out[i] == StreamByte(c, o, 64 * counter + skip + (i - off))
    ensures forall j :: 0 <= j < out.Length && !(off <= j < off + len) ==> out[j] == old(out[j])
  {
    var wide := c(o.inputCv, o.block, o.blockLen, counter, With(o.flags, ROOT));
    forall i | 0 <= i < len { out[off + i] := wide[skip + i]; }
    forall i | off <= i < off + len
      ensures out[i] == StreamByte(c, o, 64 * counter + skip + (i - off))
    {
      var at := 64 * counter + skip + (i - off);
      assert at / 64 == counter && at % 64 == skip + (i - off);
      assert out[off + (i - off)] == wide[skip + (i - off)];
    }
  }

  /** Reads bytes seek .. seek + outLen of the root's extendable output. */
  method OutputRootBytes(c: Compressor, o: Output, seek: nat, out: array<Byte>, outLen: nat)
    requires outLen <= out.Length
    modifies out
    ensures forall i :: 0 <= i < outLen ==> out[i] == StreamByte(c, o, seek + i)
    ensures forall j :: outLen <= j < out.Length ==> out[j] == old(out[j])
  {
    hide StreamByte, RootBlock;
    if outLen == 0 {
      return;
    }
    var counter, skip := seek / 64, seek % 64;
    var off, left := 0, outLen;
    if skip != 0 {
      var available := 64 - skip;
      var bytes := if left > available then available else left;
      CopyBlock(c, o, counter, out, 0, skip, bytes);
      off := bytes;
      left := left - bytes;
      counter := counter + 1;
    }
    assert left > 0 ==> 64 * counter == seek + off;
    var blocks := left / 64;
    if blocks != 0 {
      XofMany(c, o, counter, out, off, blocks);
    }
    counter := counter + blocks;
    off := off + 64 * blocks;
    left := left % 64;
    if left != 0 {
      CopyBlock(c, o, counter, out, off, 0, left);
    }
  }

  lemma {:induction false} ChunkShape(n: nat)
    ensures IsPow2(1) && Aligned(n, 1)
  {
  }

  lemma {:induction false} SmallOutput(m: Mode, data: seq<Byte>, counter: nat)
    requires |data| <= 1024
    ensures TreeOutput(m, data, counter) == Blake3Tree.ChunkOutput(m, data, counter)
  {
  }

  lemma {:induction false} EmptyStack(n: nat, h: nat)
    requires Shape(n, h)
    ensures |Sizes(n, h)| == 0 <==> n == 0
  {
  }

  lemma {:induction false} MergedSizes(n: nat, h: nat)
    requires Shape(n, h) && Merged(n, h)
    ensures Sizes(n, h) == Decompose(n)
  {
    if n > 0 {
      DecomposeSnoc(n - h, h);
    }
  }

  lemma {:induction false} WholeSum(d: seq<nat>)
    ensures d[..|d|] == d && Sum(d[..0]) == 0
  {
  }

  lemma {:induction false} NothingYet(m: Mode)
    ensures Shape(0, 0) && Sizes(0, 0) == [] && Represents(m, [], [], [])
  {
  }

  lemma {:induction false} ChunkIsSubtree(m: Mode, data: seq<Byte>, n: nat)
    requires 1024 * (n + 1) <= |data|
    ensures SubtreeCv(m, data, n, 1) == TreeCv(m, data[1024 * n..1024 * (n + 1)], n)
  {
  }

  lemma {:induction false} SubtreeHalves(m: Mode, data: seq<Byte>, n: nat, s: nat)
    requires IsPow2(s) && s > 1 && 1024 * (n + s) <= |data|
    ensures s % 2 == 0
    ensures var subtree := data[1024 * n..1024 * (n + s)];
            var l := LeftLen(|subtree|);
            && l == 1024 * (s / 2)
            && TreeCv(m, subtree[..l], n) == SubtreeCv(m, data, n, s / 2)
            && TreeCv(m, subtree[l..], n + l / 1024) == SubtreeCv(m, data, n + s / 2, s / 2)
  {
    hide TreeCv;
    var subtree := data[1024 * n..1024 * (n + s)];
    LeftLenUnique(|subtree|, s / 2);
    var l := LeftLen(|subtree|);
    assert subtree[..l] == data[1024 * n..1024 * (n + s / 2)];
    assert subtree[l..] == data[1024 * (n + s / 2)..1024 * (n + s / 2 + s / 2)];
  }

  lemma {:induction false} ChunkMask(n: nat)
    ensures IsPow2(1024) && BitAnd(1023, 1024 * n) == 0
  {
    AlignedScale(n, 1);
    MaskIsAlignment(1024, 1024 * n);
  }

  /** A subtree of p chunks may come next. */
  predicate Fits(chunks: nat, inputLen: nat, p: nat) {
    IsPow2(p) && Aligned(chunks, p) && 1024 * p <= inputLen
  }

  lemma {:induction false} FitsBelow(chunks: nat, inputLen: nat)
    ensures forall p: nat :: Fits(chunks, inputLen, p) ==> 1024 * p <= RoundDown(inputLen)
  {
    hide IsPow2, Aligned, RoundDown;
    forall p: nat | Fits(chunks, inputLen, p)
      ensures 1024 * p <= RoundDown(inputLen)
    {
      AlignedScale(chunks, p);
      RoundDownBound(inputLen, 1024 * p);
    }
  }

  // What does not divide the chunks so far may be halved.
  lemma {:induction false} FitsHalf(chunks: nat, inputLen: nat, s: nat)
    requires IsPow2(s) && BitAnd(s - 1, 1024 * chunks) != 0
    requires forall p: nat :: Fits(chunks, inputLen, p) ==> 1024 * p <= s
    ensures forall p: nat :: Fits(chunks, inputLen, p) ==> 1024 * p <= s / 2
  {
    hide IsPow2, Aligned, BitAnd;
    MaskIsAlignment(s, 1024 * chunks);
    forall p: nat | Fits(chunks, inputLen, p)
      ensures 1024 * p <= s / 2
    {
      AlignedScale(chunks, p);
      if 1024 * p < s {
        HalfOrLess(1024 * p, s);
      }
    }
  }

  class Hasher {
    const compress: Compressor
    const key: Cv
    const chunk: ChunkState
    var cvStackLen: nat
    const cvStack: array<Cv>
    ghost var content: seq<Byte>  // every byte taken so far
    ghost var top: nat            // chunks under the newest entry of the stack

    ghost predicate Valid()
      reads this, chunk, chunk.buf, cvStack
    {
      var n := chunk.chunkCounter;
      && chunk.Valid() && Wired()
      && |content| < 0x1_0000_0000_0000_0000
      && 1024 * n <= |content| && chunk.content == content[1024 * n..]
      && StackOk(content, n)
      && (if chunk.content != [] then Merged(n, top) else n == 0 || Paired(n, top))
    }

    ghost predicate Wired()
      reads this
    {
      chunk.compress == compress && chunk.key == key && chunk.buf.Length == 64 && cvStack.Length == 55
    }

    /** The stack stands for the first n chunks of `data`. */
    ghost predicate StackOk(data: seq<Byte>, n: nat)
      reads this, cvStack
    {
      && cvStack.Length == 55
      && Shape(n, top)
      && cvStackLen == |Sizes(n, top)| <= 55
      && Represents(Hashing(), data, cvStack[..cvStackLen], Sizes(n, top))
    }

    ghost function Hashing(): Mode {
      Mode(compress, key, chunk.flags)
    }

    constructor (compress: Compressor, key: Cv, flags: Byte)
      ensures Valid() && content == []
      ensures fresh(this) && fresh(chunk) && fresh(chunk.buf) && fresh(cvStack)
      ensures Hashing() == Mode(compress, key, flags)
    {
      hide Valid, ChunkState.Valid, ChunkState.Partial, BlocksCv;
      this.compress := compress;
      this.key := key;
      cvStack := new Cv[55];
      cvStackLen := 0;
      content := [];
      top := 0;
      chunk := new ChunkState(compress, key, flags);
      new;
      NothingHashed();
    }

    lemma {:induction false} NothingHashed()
      requires chunk.Valid() && Wired() && cvStackLen == 0 && top == 0 && content == []
      requires chunk.content == [] && chunk.chunkCounter == 0
      ensures Valid()
    {
      hide ChunkState.Partial, Merged, Paired, BlocksCv, Decompose, EntryOk;
      assert cvStack[..cvStackLen] == [];
      NothingYet(Hashing());
      assert StackOk(content, 0);
    }

    /** Merges siblings at the top until one entry per one bit of the chunk count is left. */
    method MergeCvStack(totalLen: nat, ghost data: seq<Byte>)
      requires StackOk(data, totalLen)
      modifies this`cvStackLen, this`top, cvStack
      ensures StackOk(data, totalLen)
      ensures Merged(totalLen, top) && Sizes(totalLen, top) == Decompose(totalLen)
    {
      hide Represents, Shape, Sizes, PopCnt, Decompose, Merged;
      var postMergeStackLen := PopCnt(totalLen);
      while cvStackLen > postMergeStackLen
        invariant StackOk(data, totalLen)
        decreases cvStackLen
      {
        TopIsSibling(totalLen, top);
        ghost var rest := cvStack[..cvStackLen - 2];
        var left, right := cvStack[cvStackLen - 2], cvStack[cvStackLen - 1];
        assert cvStack[..cvStackLen] == rest + [left, right];
        TopPow2(totalLen, top);
        MergeTop(Hashing(), data, rest, Decompose(totalLen - 2 * top), left, right, top);
        var output := ParentOutput(Mode(compress, key, chunk.flags), left, right);
        cvStack[cvStackLen - 2] := ChainingValue(compress, output);
        cvStackLen := cvStackLen - 1;
        top := 2 * top;
        assert cvStack[..cvStackLen] == rest + [cvStack[cvStackLen - 1]];
      }
      ShortIsMerged(totalLen, top);
    }

    lemma {:induction false} TopPow2(n: nat, h: nat)
      requires Shape(n, h) && n > 0
      ensures IsPow2(h)
    {
    }

    /** Lazy merging: settle the stack for the chunks before the new entry, then put it on top unmerged. */
    method PushCv(newCv: Cv, chunkCounter: nat, ghost data: seq<Byte>, ghost h: nat)
      requires StackOk(data, chunkCounter)
      requires IsPow2(h) && Aligned(chunkCounter, h) && chunkCounter + h < 0x40_0000_0000_0000
      requires 1024 * (chunkCounter + h) <= |data| && newCv == SubtreeCv(Hashing(), data, chunkCounter, h)
      modifies this`cvStackLen, this`top, cvStack
      ensures StackOk(data, chunkCounter + h) && top == h
    {
      hide Represents, Shape, Sizes, Decompose, Merged, SubtreeCv, IsPow2, Aligned;
      MergeCvStack(chunkCounter, data);
      SizesSum(chunkCounter, top);
      ghost var old_ := cvStack[..cvStackLen];
      Push(Hashing(), data, old_, Decompose(chunkCounter), newCv, h);
      PushShape(chunkCounter, h);
      DepthBound(chunkCounter + h, h);
      cvStack[cvStackLen] := newCv;
      cvStackLen := cvStackLen + 1;
      top := h;
      assert cvStack[..cvStackLen] == old_ + [newCv];
    }

    /** The largest power-of-two subtree that fits the input and the chunks so far. */
    method SubtreeLen(inputLen: nat) returns (subtreeLen: nat)
      requires inputLen > 1024
      ensures 1024 <= subtreeLen <= inputLen && subtreeLen % 1024 == 0
      ensures IsPow2(subtreeLen / 1024) && Aligned(chunk.chunkCounter, subtreeLen / 1024)
      ensures forall p: nat :: Fits(chunk.chunkCounter, inputLen, p) ==> 1024 * p <= subtreeLen
    {
      hide IsPow2, Aligned, BitAnd, RoundDown, Fits;
      subtreeLen := RoundDown(inputLen);
      ChunkMask(0);
      FitsBelow(chunk.chunkCounter, inputLen);
      RoundDownBound(inputLen, 1024);
      var countSoFar := chunk.chunkCounter * 1024;
      while BitAnd(subtreeLen - 1, countSoFar) != 0
        invariant 1024 <= subtreeLen <= inputLen && IsPow2(subtreeLen)
        invariant forall p: nat :: Fits(chunk.chunkCounter, inputLen, p) ==> 1024 * p <= subtreeLen
        decreases subtreeLen
      {
        FitsHalf(chunk.chunkCounter, inputLen, subtreeLen);
        Pow2Chunks(subtreeLen);
        if subtreeLen == 1024 {
          ChunkMask(chunk.chunkCounter);
        }
        subtreeLen := subtreeLen / 2;
      }
      Pow2Chunks(subtreeLen);
      MaskIsAlignment(subtreeLen, countSoFar);
      AlignedScale(chunk.chunkCounter, subtreeLen / 1024);
    }

    /** One subtree off the front of the input; afterwards either input is left or its two halves are unmerged. */
    method TakeSubtree(simd: Simd, rest: seq<Byte>, ghost data: seq<Byte>) returns (subtreeLen: nat)
      requires simd.Valid() && Wired() && chunk.Valid() && chunk.content == []
      requires |data| < 0x1_0000_0000_0000_0000
      requires 1024 < |rest| && |data| == 1024 * chunk.chunkCounter + |rest|
                 && rest == data[1024 * chunk.chunkCounter..]
      requires StackOk(data, chunk.chunkCounter)
      modifies this`cvStackLen, this`top, chunk`chunkCounter, cvStack
      ensures 1024 <= subtreeLen <= |rest| && subtreeLen % 1024 == 0
      ensures chunk.Valid() && chunk.content == [] && chunk.chunkCounter == old(chunk.chunkCounter) + subtreeLen / 1024
      ensures StackOk(data, chunk.chunkCounter)
      ensures subtreeLen == |rest| ==> Paired(chunk.chunkCounter, top)
    {
      hide Represents, Sizes, Shape, IsPow2, Aligned, Paired, TreeCv;
      var m := Mode(compress, key, chunk.flags);
      var n := chunk.chunkCounter;
      subtreeLen := SubtreeLen(|rest|);
      var subtreeChunks := subtreeLen / 1024;
      ghost var subtree := rest[..subtreeLen];
      assert subtree == data[1024 * n..1024 * (n + subtreeChunks)];
      if subtreeLen <= 1024 {
        var cv := CompressChunk(m, rest[..subtreeLen], n);
        PushCv(cv, n, data, 1);
      } else {
        var left, right := CompressSubtreeToParentNode(m, simd, rest[..subtreeLen], n);
        SubtreeHalves(m, data, n, subtreeChunks);
        PairShape(n, subtreeChunks);
        PushCv(left, n, data, subtreeChunks / 2);
        PushCv(right, n + subtreeChunks / 2, data, subtreeChunks / 2);
      }
      chunk.Renumber(n + subtreeChunks);
    }

    /** Fills the partial chunk; if more is coming, the chunk is not the root and goes on the stack. */
    method FinishChunk(input: seq<Byte>, ghost data: seq<Byte>) returns (rest: seq<Byte>)
      requires Wired() && chunk.Valid() && chunk.content != [] && input != []
      requires |data| < 0x1_0000_0000_0000_0000
      requires |data| == 1024 * chunk.chunkCounter + |chunk.content| + |input|
      requires data[1024 * chunk.chunkCounter..] == chunk.content + input
      requires StackOk(data, chunk.chunkCounter) && Merged(chunk.chunkCounter, top)
      modifies this`cvStackLen, this`top, chunk, chunk.buf, cvStack
      ensures Wired() && chunk.Valid() && StackOk(data, chunk.chunkCounter)
      ensures |data| == 1024 * chunk.chunkCounter + |chunk.content| + |rest|
      ensures data[1024 * chunk.chunkCounter..] == chunk.content + rest
      ensures if rest == [] then chunk.content != [] && Merged(chunk.chunkCounter, top) else chunk.content == []
    {
      hide Represents, Sizes, Shape, Merged, Decompose, TreeCv, ChunkState.Partial, Blake3Tree.ChunkOutput, SubtreeCv;
      var take := 1024 - chunk.Len();
      if take > |input| {
        take := |input|;
      }
      chunk.Update(input[..take]);
      rest := input[take..];
      var n := chunk.chunkCounter;
      assert chunk.content + rest == data[1024 * n..];
      if |rest| > 0 {
        assert chunk.content == data[1024 * n..1024 * (n + 1)];
        var cv := ChainingValue(compress, chunk.ChunkOutput());
        SmallTree(Hashing(), chunk.content, n);
        assert cv == SubtreeCv(Hashing(), data, n, 1) by { ChunkIsSubtree(Hashing(), data, n); }
        ChunkShape(n);
        PushCv(cv, n, data, 1);
        chunk.Reset(key, chunk.chunkCounter + 1);
      }
    }

    method Update(input: seq<Byte>, simd: Simd)
      requires Valid() && simd.Valid()
      requires |content| + |input| < 0x1_0000_0000_0000_0000
      modifies this, chunk, chunk.buf, cvStack
      ensures Valid() && content == old(content) + input
    {
      hide Represents, Sizes, Shape, Merged, Paired, Decompose, ChunkState.Partial;
      if |input| == 0 {
        assert content + input == content;
        return;
      }
      ghost var data := content + input;
      MoreData(Hashing(), content, input, cvStack[..cvStackLen], Sizes(chunk.chunkCounter, top));
      content := data;
      var rest := input;
      if chunk.Len() > 0 {
        rest := FinishChunk(rest, data);
        if |rest| == 0 {
          return;
        }
      }
      while |rest| > 1024
        invariant Wired() && chunk.Valid() && chunk.content == [] && content == data
        invariant |data| == 1024 * chunk.chunkCounter + |rest| && rest == data[1024 * chunk.chunkCounter..]
        invariant StackOk(data, chunk.chunkCounter)
        invariant rest == [] ==> Paired(chunk.chunkCounter, top)
        decreases |rest|
      {
        var subtreeLen := TakeSubtree(simd, rest, data);
        rest := rest[subtreeLen..];
      }
      if |rest| > 0 {
        chunk.Update(rest);
        MergeCvStack(chunk.chunkCounter, data);
      }
    }

    /** The node the message's output is read from. */
    method RootOutput() returns (output: Output)
      requires Valid()
      ensures output == TreeOutput(Hashing(), content, 0)
    {
      hide Represents, Sizes, Shape, Merged, Paired, Decompose, ChunkState.Partial, TreeOutput, Sum,
           ParentOutput, ChainingValue, Blake3Tree.ChunkOutput;
      var m := Mode(compress, key, chunk.flags);
      ghost var n := chunk.chunkCounter;
      if cvStackLen == 0 {
        output := chunk.ChunkOutput();
        EmptyStack(n, top);
        assert content[0..] == content;
        SmallOutput(m, content, 0);
        return;
      }
      var cvsRemaining: nat;
      ghost var k: nat, g: nat;
      if chunk.Len() > 0 {
        cvsRemaining := cvStackLen;
        output := chunk.ChunkOutput();
        SmallOutput(m, content[1024 * n..], n);
        MergedSizes(n, top);
        ChunkShape(n);
        k, g := n, 1;
      } else {
        EmptyStack(n, top);
        PairedSizes(n, top);
        k, g := n - 2 * top, 2 * top;
        cvsRemaining := cvStackLen - 2;
        output := ParentOutput(m, cvStack[cvsRemaining], cvStack[cvsRemaining + 1]);
        assert cvStack[..cvStackLen] == cvStack[..cvsRemaining] + [cvStack[cvsRemaining], cvStack[cvsRemaining + 1]];
        PairOutput(m, content, cvStack[..cvsRemaining], k, top, cvStack[cvsRemaining], cvStack[cvsRemaining + 1]);
      }
      ghost var d := Decompose(k);
      WholeSum(d);
      while cvsRemaining > 0
        invariant cvsRemaining <= |d| && 1024 * Sum(d[..cvsRemaining]) <= |content|
        invariant output == TreeOutput(m, content[1024 * Sum(d[..cvsRemaining])..], Sum(d[..cvsRemaining]))
      {
        FoldEntry(m, content, cvStack[..cvStackLen], Sizes(n, top), k, g, cvsRemaining, output);
        cvsRemaining := cvsRemaining - 1;
        output := ParentOutput(m, cvStack[cvsRemaining], ChainingValue(compress, output));
      }
      assert content[0..] == content;
    }

    /** Writes bytes seek .. seek + outLen of the message's extendable output. */
    method FinalizeSeek(seek: nat, out: array<Byte>, outLen: nat)
      requires Valid() && outLen <= out.Length
      requires out != chunk.buf
      modifies out
      ensures forall i :: 0 <= i < outLen ==> out[i] == HashByte(Hashing(), content, seek + i)
      ensures forall j :: outLen <= j < out.Length ==> out[j] == old(out[j])
    {
      hide TreeOutput, StreamByte;
      if outLen == 0 {
        return;
      }
      var output := RootOutput();
      OutputRootBytes(compress, output, seek, out, outLen);
    }

    method Finalize(out: array<Byte>, outLen: nat)
      requires Valid() && outLen <= out.Length
      requires out != chunk.buf
      modifies out
      ensures forall i :: 0 <= i < outLen ==> out[i] == HashByte(Hashing(), content, i)
      ensures forall j :: outLen <= j < out.Length ==> out[j] == old(out[j])
    {
      hide HashByte;
      FinalizeSeek(0, out, outLen);
    }

    method Reset()
      requires Valid()
      modifies this, chunk, chunk.buf
      ensures Valid() && content == []
    {
      hide ChunkState.Partial, Merged, Paired;
      chunk.Reset(key, 0);
      cvStackLen := 0;
      content := [];
      top := 0;
      NothingHashed();
    }
  }

  /** The keyless hasher. */
  method Init(compress: Compressor) returns (h: Hasher)
    ensures h.Valid() && h.content == [] && h.Hashing() == Mode(compress, IV, 0)
    ensures fresh(h) && fresh(h.chunk) && fresh(h.chunk.buf) && fresh(h.cvStack)
  {
    h := new Hasher(compress, IV, 0);
  }

  method InitKeyed(compress: Compressor, key: Cv) returns (h: Hasher)
    ensures h.Valid() && h.content == [] && h.Hashing() == Mode(compress, key, 16)
    ensures fresh(h) && fresh(h.chunk) && fresh(h.chunk.buf) && fresh(h.cvStack)
  {
    h := new Hasher(compress, key, KEYED_HASH);
  }

  /** The first 32 output bytes of the context string become the key. */
  ghost function ContextKey(compress: Compressor, context: seq<Byte>): Cv {
    seq(32, i requires 0 <= i => HashByte(Mode(compress, IV, 32), context, i))
  }

  method InitDeriveKeyRaw(compress: Compressor, context: seq<Byte>, simd: Simd) returns (h: Hasher)
    requires simd.Valid() && |context| < 0x1_0000_0000_0000_0000
    ensures h.Valid() && h.content == []
    ensures h.Hashing() == Mode(compress, ContextKey(compress, context), 64)
    ensures fresh(h) && fresh(h.chunk) && fresh(h.chunk.buf) && fresh(h.cvStack)
  {
    hide HashByte, Hasher.Valid;
    var contextHasher := new Hasher(compress, IV, DERIVE_KEY_CONTEXT);
    contextHasher.Update(context, simd);
    assert contextHasher.content == context;
    var contextKey := new Byte[32];
    contextHasher.Finalize(contextKey, 32);
    var key := contextKey[..];
    assert key == ContextKey(compress, context);
    h := new Hasher(compress, key, DERIVE_KEY_MATERIAL);
  }

  function Flatten(pieces: seq<seq<Byte>>): seq<Byte> {
    if pieces == [] then [] else pieces[0] + Flatten(pieces[1..])
  }

  /** However the input is cut into updates, the output is the tree hash of all of it. */
  method HashPieces(compress: Compressor, key: Cv, flags: Byte, pieces: seq<seq<Byte>>, simd: Simd, seek: nat,
                    outLen: nat)
    returns (out: array<Byte>)
    requires simd.Valid() && |Flatten(pieces)| < 0x1_0000_0000_0000_0000
    ensures out.Length == outLen
    ensures forall i :: 0 <= i < outLen ==> out[i] == HashByte(Mode(compress, key, flags), Flatten(pieces), seek + i)
  {
    hide HashByte, Hasher.Valid;
    var h := new Hasher(compress, key, flags);
    var i := 0;
    assert Flatten(pieces) == h.content + Flatten(pieces[0..]);
    while i < |pieces|
      invariant i <= |pieces| && h.Valid() && h.Hashing() == Mode(compress, key, flags)
      invariant fresh(h) && fresh(h.chunk) && fresh(h.chunk.buf) && fresh(h.cvStack)
      invariant Flatten(pieces) == h.content + Flatten(pieces[i..])
    {
      assert Flatten(pieces[i..]) == pieces[i] + Flatten(pieces[i + 1..]);
      h.Update(pieces[i], simd);
      i := i + 1;
    }
    assert h.content == Flatten(pieces);
    out := new Byte[outLen];
    h.FinalizeSeek(seek, out, outLen);
  }
}
