// The BLAKE3 tree hash as the paper defines it (section 2.1 and section 2.6):
// chunks of 1024 bytes, a left-balanced binary tree of parents, and an
// extendable root output. The compression function is an arbitrary parameter.
module Blake3Tree {
  import opened Sequences
  import opened Bits

  type Byte = bv8
  type Cv = s: seq<Byte> | |s| == 32 witness seq(32, _ => 0)
  type Block = s: seq<Byte> | |s| == 64 witness seq(64, _ => 0)

  /** (chaining value, block, block length, counter, flags) to the 64 output bytes. */
  type Compressor = (Cv, Block, nat, nat, Byte) -> Block

  const CHUNK_START: Byte := 1
  const CHUNK_END: Byte := 2
  const PARENT: Byte := 4
  const ROOT: Byte := 8

  /** Sets the bits of one flag. */
  function With(flags: Byte, flag: Byte): Byte {
    flags | flag
  }

  lemma {:induction false} WithNothing(flags: Byte)
    ensures With(flags, 0) == flags
  {
  }

  /** What stays fixed over one hash: the compression function, the key words and the mode flags. */
  datatype Mode = Mode(compress: Compressor, key: Cv, flags: Byte)

  /** A node whose compression is still pending. */
  datatype Output = Output(inputCv: Cv, counter: nat, block: Block, blockLen: nat, flags: Byte)

  function ChainingValue(c: Compressor, o: Output): Cv {
    c(o.inputCv, o.block, o.blockLen, o.counter, o.flags)[..32]
  }

  /** Block i of the root's extendable output. */
  function RootBlock(c: Compressor, o: Output, i: nat): Block {
    c(o.inputCv, o.block, o.blockLen, i, With(o.flags, ROOT))
  }

  function Pad(s: seq<Byte>): Block
    requires |s| <= 64
  {
    s + seq(64 - |s|, _ => 0)
  }

  // ---------- chunks ----------

  function StartFlag(first: bool): Byte {
    if first then CHUNK_START else 0
  }

  /** Chaining value after the whole blocks of `data`, all of them inner blocks of one chunk. */
  function BlocksCv(m: Mode, data: seq<Byte>, counter: nat): Cv
    requires |data| % 64 == 0
  {
    if data == [] then m.key else
    var n := |data| - 64;
    m.compress(BlocksCv(m, data[..n], counter), data[n..], 64, counter, With(m.flags, StartFlag(n == 0)))[..32]
  }

  /** Number of blocks of a chunk that come before its last block. */
  function InnerBlocks(len: nat): (n: nat)
    ensures 64 * n <= len <= 64 * n + 64
    ensures len > 0 ==> 64 * n < len
  {
    if len == 0 then 0 else (len - 1) / 64
  }

  function ChunkOutput(m: Mode, data: seq<Byte>, counter: nat): Output
    requires |data| <= 1024
  {
    var n := 64 * InnerBlocks(|data|);
    Output(BlocksCv(m, data[..n], counter), counter, Pad(data[n..]), |data| - n,
           With(With(m.flags, StartFlag(n == 0)), CHUNK_END))
  }

  // ---------- the tree ----------

  function ParentBlock(left: Cv, right: Cv): Block {
    var bytes: seq<Byte> := left;
    bytes + right
  }

  function ParentOutput(m: Mode, left: Cv, right: Cv): Output {
    Output(m.key, 0, ParentBlock(left, right), 64, With(m.flags, PARENT))
  }

  function ParentCv(m: Mode, left: Cv, right: Cv): Cv {
    ChainingValue(m.compress, ParentOutput(m, left, right))
  }

  // Below any mode flags, the low four bits say what is compressed: the end of a chunk of one block or more, a parent,
  // and each of these as the root. So no two kinds of node are ever compressed under the same flags.
  lemma {:induction false} NodeFlags(m: Mode, data: seq<Byte>, counter: nat, left: Cv, right: Cv)
    requires |data| <= 1024 && m.flags & 0x0F == 0
    ensures var chunk, parent := ChunkOutput(m, data, counter).flags, ParentOutput(m, left, right).flags;
            && chunk & 0x0F == (if |data| <= 64 then 0x03 else 0x02) && chunk & 0xF0 == m.flags
            && parent & 0x0F == 0x04 && parent & 0xF0 == m.flags
            && With(chunk, ROOT) & 0x0F == (if |data| <= 64 then 0x0B else 0x0A)
            && With(parent, ROOT) & 0x0F == 0x0C
  {
    hide BlocksCv;
    LowBits(m.flags);
  }

  lemma {:induction false} LowBits(flags: Byte)
    requires flags & 0x0F == 0
    ensures forall low: Byte :: low & 0xF0 == 0 ==> With(flags, low) & 0x0F == low && With(flags, low) & 0xF0 == flags
    ensures With(flags, 0) == flags
    ensures forall x: Byte, y: Byte :: With(With(flags, x), y) == With(flags, x | y)
  {
  }

  /** Bytes of the left subtree: the most chunks, a power of two, that leave a byte on the right. */
  function LeftLen(len: nat): (n: nat)
    requires len > 1024
    ensures 1024 <= n < len && n % 1024 == 0 && len <= 2 * n
    ensures IsPow2(n / 1024)
  {
    1024 * RoundDown((len - 1) / 1024)
  }

  /** The root node of the tree over `data`, whose first chunk has number `counter`. */
  function TreeOutput(m: Mode, data: seq<Byte>, counter: nat): Output
    decreases |data|, 0
  {
    if |data| <= 1024 then ChunkOutput(m, data, counter) else
    var n := LeftLen(|data|);
    ParentOutput(m, TreeCv(m, data[..n], counter), TreeCv(m, data[n..], counter + n / 1024))
  }

  function TreeCv(m: Mode, data: seq<Byte>, counter: nat): Cv
    decreases |data|, 1
  {
    ChainingValue(m.compress, TreeOutput(m, data, counter))
  }

  lemma {:induction false} TreeSplit(m: Mode, data: seq<Byte>, counter: nat)
    requires |data| > 1024
    ensures var n := LeftLen(|data|);
            TreeOutput(m, data, counter) ==
            ParentOutput(m, TreeCv(m, data[..n], counter), TreeCv(m, data[n..], counter + n / 1024))
    ensures TreeCv(m, data, counter) == ChainingValue(m.compress, TreeOutput(m, data, counter))
  {
    hide ChunkOutput, ParentOutput, ChainingValue, LeftLen, BlocksCv;
  }

  /** Byte i of the extendable output of the whole message. */
  function HashByte(m: Mode, data: seq<Byte>, i: nat): Byte {
    StreamByte(m.compress, TreeOutput(m, data, 0), i)
  }

  function StreamByte(c: Compressor, o: Output, i: nat): Byte {
    RootBlock(c, o, i / 64)[i % 64]
  }

  // Byte j of block k of the stream is that of the node compressed as the root, with k for its counter.
  lemma {:induction false} StreamExactly(c: Compressor, o: Output, k: nat, j: nat)
    requires j < 64
    ensures StreamByte(c, o, 64 * k + j) == c(o.inputCv, o.block, o.blockLen, k, o.flags | 8)[j]
  {
    assert (64 * k + j) / 64 == k && (64 * k + j) % 64 == j;
  }

  // The split point is the only power-of-two number of chunks with this property.
  lemma {:induction false} LeftLenUnique(len: nat, p: nat)
    requires IsPow2(p) && 1024 * p < len <= 2048 * p
    ensures LeftLen(len) == 1024 * p
  {
    RoundDownUnique((len - 1) / 1024, p);
  }

  // ---------- bottom-up pairing ----------

  /** The chaining values of the chunks of `data`. */
  function Leaves(m: Mode, data: seq<Byte>, counter: nat): (cvs: seq<Cv>)
    ensures |cvs| == if |data| <= 1024 then 1 else (|data| + 1023) / 1024
    decreases |data|
  {
    if |data| <= 1024 then [TreeCv(m, data, counter)] else
    [TreeCv(m, data[..1024], counter)] + Leaves(m, data[1024..], counter + 1)
  }

  /** The left-balanced tree over a row of chaining values. */
  function Merkle(m: Mode, cvs: seq<Cv>): Cv
    requires |cvs| >= 1
    decreases |cvs|
  {
    if |cvs| == 1 then cvs[0] else
    var p := RoundDown(|cvs| - 1);
    ParentCv(m, Merkle(m, cvs[..p]), Merkle(m, cvs[p..]))
  }

  /** The two children of the root of that tree. */
  function TopPair(m: Mode, cvs: seq<Cv>): (Cv, Cv)
    requires |cvs| >= 2
  {
    var p := RoundDown(|cvs| - 1);
    (Merkle(m, cvs[..p]), Merkle(m, cvs[p..]))
  }

  /** One layer of parents; an odd value at the end moves up unchanged. */
  function Condense(m: Mode, cvs: seq<Cv>): (r: seq<Cv>)
    ensures |r| == (|cvs| + 1) / 2
  {
    if |cvs| <= 1 then cvs else [ParentCv(m, cvs[0], cvs[1])] + Condense(m, cvs[2..])
  }

  lemma {:induction false} CondenseSplit(m: Mode, a: seq<Cv>, b: seq<Cv>)
    requires |a| % 2 == 0
    ensures Condense(m, a + b) == Condense(m, a) + Condense(m, b)
  {
    if a == [] {
      assert a + b == b;
      assert Condense(m, a) + Condense(m, b) == Condense(m, b);
    } else {
      CondenseSplit(m, a[2..], b);
      assert (a + b)[2..] == a[2..] + b;
      assert Condense(m, a) + Condense(m, b)
          == [ParentCv(m, a[0], a[1])] + (Condense(m, a[2..]) + Condense(m, b));
    }
  }

  lemma {:induction false} TopPairOf(m: Mode, a: seq<Cv>, b: seq<Cv>)
    requires IsPow2(|a|) && 1 <= |b| <= |a|
    ensures TopPair(m, a + b) == (Merkle(m, a), Merkle(m, b))
    ensures Merkle(m, a + b) == ParentCv(m, Merkle(m, a), Merkle(m, b))
  {
    RoundDownUnique(|a + b| - 1, |a|);
    assert (a + b)[..|a|] == a && (a + b)[|a|..] == b;
  }

  // Condensing a row of at least three leaves the two children of the root as they are.
  lemma {:induction false} CondenseTopPair(m: Mode, cvs: seq<Cv>)
    requires |cvs| > 2
    ensures TopPair(m, Condense(m, cvs)) == TopPair(m, cvs)
    decreases |cvs|, 1
  {
    var p := RoundDown(|cvs| - 1);
    assert cvs == cvs[..p] + cvs[p..];
    CondensePair(m, cvs[..p], cvs[p..]);
  }

  lemma {:induction false} CondensePair(m: Mode, a: seq<Cv>, b: seq<Cv>)
    requires IsPow2(|a|) && 1 <= |b| <= |a| && |a| > 1
    ensures TopPair(m, Condense(m, a + b)) == TopPair(m, a + b) == (Merkle(m, a), Merkle(m, b))
    decreases |a| + |b|, 0
  {
    var h := |a| / 2;
    assert IsPow2(h) && |a| == 2 * h;
    CondenseSplit(m, a, b);
    assert |Condense(m, a)| == h && 1 <= |Condense(m, b)| <= h;
    CondenseMerkle(m, a);
    CondenseMerkle(m, b);
    TopPairOf(m, Condense(m, a), Condense(m, b));
    TopPairOf(m, a, b);
  }

  // Condensing a row never changes the root of its tree.
  lemma {:induction false} CondenseMerkle(m: Mode, cvs: seq<Cv>)
    requires |cvs| >= 1
    ensures Merkle(m, Condense(m, cvs)) == Merkle(m, cvs)
    decreases |cvs|, 2
  {
    if |cvs| == 2 {
      assert Condense(m, cvs) == [ParentCv(m, cvs[0], cvs[1])] + Condense(m, cvs[2..]);
      assert RoundDown(1) == 1;
      assert cvs[..1] == [cvs[0]] && cvs[1..] == [cvs[1]];
    } else if |cvs| > 2 {
      CondenseTopPair(m, cvs);
    }
  }

  lemma {:induction false} LeavesSplit(m: Mode, data: seq<Byte>, counter: nat, k: nat)
    requires 0 < k && 1024 * k < |data|
    ensures Leaves(m, data, counter)
         == Leaves(m, data[..1024 * k], counter) + Leaves(m, data[1024 * k..], counter + k)
    decreases k
  {
    hide TreeCv;
    var rest := data[1024..];
    if k > 1 {
      LeavesSplit(m, rest, counter + 1, k - 1);
      assert rest[..1024 * (k - 1)] == data[..1024 * k][1024..];
      assert rest[1024 * (k - 1)..] == data[1024 * k..];
      assert data[..1024 * k][..1024] == data[..1024];
      assert counter + 1 + (k - 1) == counter + k;
      ConcatAssoc([TreeCv(m, data[..1024], counter)], Leaves(m, rest[..1024 * (k - 1)], counter + 1),
                  Leaves(m, data[1024 * k..], counter + k));
    }
  }

  // The recursive tree over bytes is the left-balanced tree over the chunks.
  lemma {:induction false} TreeIsMerkle(m: Mode, data: seq<Byte>, counter: nat)
    ensures TreeCv(m, data, counter) == Merkle(m, Leaves(m, data, counter))
    decreases |data|, 2
  {
    if |data| > 1024 {
      TreeIsTopPair(m, data, counter);
    }
  }

  lemma {:induction false} TreeIsTopPair(m: Mode, data: seq<Byte>, counter: nat)
    requires |data| > 1024
    ensures var (l, r) := TopPair(m, Leaves(m, data, counter));
            TreeOutput(m, data, counter) == ParentOutput(m, l, r)
    decreases |data|, 1
  {
    hide TreeCv, TreeOutput, ChainingValue, ParentOutput, Leaves, TopPair;
    var n := LeftLen(|data|);
    var p := n / 1024;
    var left, right := data[..n], data[n..];
    TreeSplit(m, data, counter);
    assert Leaves(m, data, counter) == Leaves(m, left, counter) + Leaves(m, right, counter + p) by {
      LeavesSplit(m, data, counter, p);
    }
    LeftRows(m, left, right, counter, p);
  }

  lemma {:induction false} LeftRows(m: Mode, left: seq<Byte>, right: seq<Byte>, counter: nat, p: nat)
    requires IsPow2(p) && |left| == 1024 * p && 0 < |right| <= |left|
    ensures TopPair(m, Leaves(m, left, counter) + Leaves(m, right, counter + p))
         == (TreeCv(m, left, counter), TreeCv(m, right, counter + p))
    decreases |left| + |right|, 0
  {
    hide *;
    TreeIsMerkle(m, left, counter);
    TreeIsMerkle(m, right, counter + p);
    TopPairOf(m, Leaves(m, left, counter), Leaves(m, right, counter + p));
  }
}
