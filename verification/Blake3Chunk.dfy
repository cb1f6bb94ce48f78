// The incremental chunk hasher of blake3.c: a 64-byte buffer in front of a
// chaining value, the last block always held back.
module Blake3Chunk {
  import opened Sequences
  import opened Blake3Tree

  lemma {:induction false} BlocksCvAppend(m: Mode, data: seq<Byte>, block: Block, counter: nat)
    requires |data| % 64 == 0
    ensures |data + block| % 64 == 0
    ensures BlocksCv(m, data + block, counter)
         == m.compress(BlocksCv(m, data, counter), block, 64, counter, With(m.flags, StartFlag(data == [])))[..32]
  {
    var d := data + block;
    var n := |d| - 64;
    assert d[..n] == data && d[n..] == block;
  }

  lemma {:induction false} InnerBlock(m: Mode, done: seq<Byte>, block: Block, counter: nat)
    requires |done| % 64 == 0
    ensures |done + block| % 64 == 0
    ensures var f := if done == [] then With(m.flags, CHUNK_START) else m.flags;
            BlocksCv(m, done + block, counter) == m.compress(BlocksCv(m, done, counter), block, 64, counter, f)[..32]
  {
    BlocksCvAppend(m, done, block, counter);
    WithNothing(m.flags);
  }

  lemma {:induction false} BlocksCvEmpty(m: Mode, counter: nat)
    ensures BlocksCv(m, [], counter) == m.key
  {
  }

  class ChunkState {
    const compress: Compressor
    ghost const key: Cv
    var cv: Cv
    var chunkCounter: nat
    const buf: array<Byte>
    var bufLen: nat
    var blocksCompressed: nat
    const flags: Byte
    ghost var content: seq<Byte>  // the bytes of this chunk so far

    ghost predicate Valid()
      reads this, buf
    {
      |content| <= 1024 && Partial(content) && (content != [] ==> bufLen > 0)
    }

    /** The chaining value covers the whole blocks of d that the counter tells; the buffer holds the rest. */
    ghost predicate Partial(d: seq<Byte>)
      reads this, buf
    {
      && buf.Length == 64
      && bufLen <= 64
      && 64 * blocksCompressed + bufLen == |d|
      && cv == BlocksCv(Hashing(), d[..64 * blocksCompressed], chunkCounter)
      && buf[..] == Pad(d[64 * blocksCompressed..])
    }

    ghost function Hashing(): Mode {
      Mode(compress, key, flags)
    }

    constructor (compress: Compressor, key: Cv, flags: Byte)
      ensures Valid() && fresh(this) && fresh(buf) && buf.Length == 64
      ensures Hashing() == Mode(compress, key, flags)
      ensures content == [] && chunkCounter == 0
    {
      this.compress := compress;
      this.key := key;
      this.flags := flags;
      cv := key;
      chunkCounter := 0;
      buf := new Byte[64](_ => 0);
      bufLen := 0;
      blocksCompressed := 0;
      content := [];
    }

    method Reset(key: Cv, counter: nat)
      requires Valid() && key == this.key
      modifies this, buf
      ensures Valid() && content == [] && chunkCounter == counter
    {
      cv := key;
      chunkCounter := counter;
      blocksCompressed := 0;
      forall i | 0 <= i < 64 { buf[i] := 0; }
      bufLen := 0;
      content := [];
    }

    /** An empty chunk may take any number: nothing has been compressed under the old one. */
    method Renumber(counter: nat)
      requires Valid() && content == []
      modifies this`chunkCounter
      ensures Valid() && chunkCounter == counter
    {
      chunkCounter := counter;
    }

    function Len(): (n: nat)
      requires Valid()
      reads this, buf
      ensures n == |content|
    {
      64 * blocksCompressed + bufLen
    }

    function MaybeStartFlag(): Byte
      reads this
    {
      if blocksCompressed == 0 then CHUNK_START else 0
    }

    /** Copies as much of the input as fits behind the buffered bytes. */
    method FillBuf(input: seq<Byte>, ghost d: seq<Byte>) returns (take: nat)
      requires Partial(d)
      modifies this`bufLen, buf
      ensures take == if 64 - old(bufLen) > |input| then |input| else 64 - old(bufLen)
      ensures bufLen == old(bufLen) + take && Partial(d + input[..take])
    {
      take := 64 - bufLen;
      if take > |input| {
        take := |input|;
      }
      ghost var n := 64 * blocksCompressed;
      var start := bufLen;
      forall i | 0 <= i < take { buf[start + i] := input[i]; }
      bufLen := bufLen + take;
      assert (d + input[..take])[..n] == d[..n];
      assert (d + input[..take])[n..] == d[n..] + input[..take];
    }

    /** Compresses one block that is known not to be the chunk's last. */
    method CompressBlock(block: Block, ghost d: seq<Byte>)
      requires 64 * blocksCompressed == |d| && cv == BlocksCv(Hashing(), d, chunkCounter)
      modifies this`cv, this`blocksCompressed
      ensures blocksCompressed == old(blocksCompressed) + 1
      ensures 64 * blocksCompressed == |d + block| && cv == BlocksCv(Hashing(), d + block, chunkCounter)
    {
      hide BlocksCv;
      BlocksCvAppend(Hashing(), d, block, chunkCounter);
      assert d == [] <==> blocksCompressed == 0;
      cv := compress(cv, block, 64, chunkCounter, With(flags, MaybeStartFlag()))[..32];
      blocksCompressed := blocksCompressed + 1;
    }

    method FlushBuf(ghost d: seq<Byte>)
      requires Partial(d) && bufLen == 64
      modifies this`cv, this`blocksCompressed, this`bufLen, buf
      ensures Partial(d) && bufLen == 0
    {
      hide BlocksCv;
      ghost var n := 64 * blocksCompressed;
      assert buf[..] == d[n..] && d == d[..n] + d[n..];
      CompressBlock(buf[..], d[..n]);
      bufLen := 0;
      forall i | 0 <= i < 64 { buf[i] := 0; }
      assert d[..|d|] == d;
    }

    /** A block straight from the input, the buffer being empty. */
    method PassBlock(block: Block, ghost d: seq<Byte>)
      requires Partial(d) && bufLen == 0
      modifies this`cv, this`blocksCompressed
      ensures Partial(d + block)
    {
      hide BlocksCv;
      assert d[..|d|] == d && d[|d|..] == [];
      CompressBlock(block, d);
      assert (d + block)[..|d + block|] == d + block && (d + block)[|d + block|..] == [];
    }

    method Update(input: seq<Byte>)
      requires Valid() && |content| + |input| <= 1024
      modifies this, buf
      ensures Valid() && content == old(content) + input
      ensures chunkCounter == old(chunkCounter)
    {
      hide BlocksCv, Partial;
      var rest := input;
      ghost var done := content;
      if bufLen > 0 {
        var take := FillBuf(rest, done);
        done := done + rest[..take];
        rest := rest[take..];
        if |rest| > 0 {
          FlushBuf(done);
        }
      }
      assert done + rest == content + input;
      while |rest| > 64
        invariant done + rest == content + input && Partial(done)
        invariant if rest == [] then done != [] ==> bufLen > 0 else bufLen == 0
        invariant content == old(content) && chunkCounter == old(chunkCounter)
      {
        PassBlock(rest[..64], done);
        assert rest == rest[..64] + rest[64..];
        ConcatAssoc(done, rest[..64], rest[64..]);
        done := done + rest[..64];
        rest := rest[64..];
      }
      var take := FillBuf(rest, done);
      assert done + rest[..take] == content + input;
      Record(done + rest[..take]);
    }

    /** Takes note of the bytes the chunk now has. */
    ghost method Record(d: seq<Byte>)
      requires Partial(d)
      modifies this`content
      ensures Partial(d) && content == d
    {
      content := d;
    }

    /** The pending compression of the chunk's last block. */
    function ChunkOutput(): (o: Output)
      requires Valid()
      reads this, buf
      ensures o == Blake3Tree.ChunkOutput(Hashing(), content, chunkCounter)
    {
      Output(cv, chunkCounter, buf[..], bufLen, With(With(flags, MaybeStartFlag()), CHUNK_END))
    }
  }
}
