// The wide subtree routines of blake3.c and their portable leaves: a row of at
// most SIMD-degree chaining values travels up the tree, and the last two are
// never merged. Arrays of chaining values are indexed by slot.
module Blake3Wide {
  import opened Bits
  import opened Blake3Tree
  import opened Blake3Chunk

  /** The run-time SIMD degree and the compile-time bound the buffers are sized by. */
  datatype Simd = Simd(degree: nat, maxDegree: nat) {
    ghost predicate Valid() {
      IsPow2(degree) && degree <= maxDegree
    }
    function MaxOr2(): (n: nat)
      ensures n >= 2 && n >= maxDegree
    {
      if maxDegree > 2 then maxDegree else 2
    }
  }

  /** The chaining value after the whole blocks of `data`, the first of them flagged. */
  function Absorbed(m: Mode, data: seq<Byte>, counter: nat, flagsStart: Byte): Cv
    requires |data| % 64 == 0
  {
    if data == [] then m.key else
    var n := |data| - 64;
    m.compress(Absorbed(m, data[..n], counter, flagsStart), data[n..], 64, counter,
               if n == 0 then With(m.flags, flagsStart) else m.flags)[..32]
  }

  /** What hashing `input` as whole blocks yields: the first and the last block carry their flags. */
  ghost predicate HashedTo(m: Mode, input: seq<Byte>, counter: nat, flagsStart: Byte, flagsEnd: Byte, cv: Cv) {
    && |input| > 0 && |input| % 64 == 0
    && var n := |input| - 64;
       cv == m.compress(Absorbed(m, input[..n], counter, flagsStart), input[n..], 64, counter,
                        With(if n == 0 then With(m.flags, flagsStart) else m.flags, flagsEnd))[..32]
  }

  method HashOne(m: Mode, input: seq<Byte>, blocks: nat, counter: nat, flagsStart: Byte, flagsEnd: Byte)
    returns (cv: Cv)
    requires |input| == 64 * blocks && blocks > 0
    ensures HashedTo(m, input, counter, flagsStart, flagsEnd, cv)
  {
    hide Absorbed, With, HashedTo;
    cv := m.key;
    var blockFlags := With(m.flags, flagsStart);
    var rest, left := input, blocks;
    AbsorbedNothing(m, input, counter, flagsStart);
    while left > 0
      invariant left <= blocks && |rest| == 64 * left && rest == input[64 * (blocks - left)..]
      invariant blockFlags == if left == blocks then With(m.flags, flagsStart) else m.flags
      invariant left > 0 ==> cv == AbsorbedTo(m, input, blocks - left, counter, flagsStart)
      invariant left == 0 ==> HashedTo(m, input, counter, flagsStart, flagsEnd, cv)
    {
      var block := rest[..64];
      NextBlock(input, rest, blocks - left);
      if left == 1 {
        blockFlags := With(blockFlags, flagsEnd);
        LastAbsorbed(m, input, blocks - 1, counter, flagsStart, flagsEnd);
      } else {
        AbsorbedNext(m, input, blocks - left, counter, flagsStart);
      }
      cv := m.compress(cv, block, 64, counter, blockFlags)[..32];
      rest := rest[64..];
      left := left - 1;
      blockFlags := m.flags;
    }
  }

  /** The chaining value after the first k blocks. */
  function AbsorbedTo(m: Mode, input: seq<Byte>, k: nat, counter: nat, flagsStart: Byte): Cv
    requires 64 * k <= |input|
  {
    Absorbed(m, input[..64 * k], counter, flagsStart)
  }

  function BlockAt(input: seq<Byte>, k: nat): Block
    requires 64 * (k + 1) <= |input|
  {
    input[64 * k..64 * (k + 1)]
  }

  lemma {:induction false} NextBlock(input: seq<Byte>, rest: seq<Byte>, k: nat)
    requires 64 * (k + 1) <= |input| && rest == input[64 * k..]
    ensures rest[..64] == BlockAt(input, k) && rest[64..] == input[64 * (k + 1)..]
  {
  }

  lemma {:induction false} AbsorbedNext(m: Mode, input: seq<Byte>, k: nat, counter: nat, flagsStart: Byte)
    requires 64 * (k + 1) <= |input|
    ensures AbsorbedTo(m, input, k + 1, counter, flagsStart)
         == m.compress(AbsorbedTo(m, input, k, counter, flagsStart), BlockAt(input, k), 64, counter,
                       if k == 0 then With(m.flags, flagsStart) else m.flags)[..32]
  {
    hide With;
    var d := input[..64 * (k + 1)];
    assert d[..|d| - 64] == input[..64 * k] && d[|d| - 64..] == BlockAt(input, k);
  }

  lemma {:induction false} LastAbsorbed(m: Mode, input: seq<Byte>, k: nat, counter: nat, flagsStart: Byte,
                                        flagsEnd: Byte)
    requires |input| == 64 * (k + 1)
    ensures HashedTo(m, input, counter, flagsStart, flagsEnd,
                     m.compress(AbsorbedTo(m, input, k, counter, flagsStart), BlockAt(input, k), 64, counter,
                                With(if k == 0 then With(m.flags, flagsStart) else m.flags, flagsEnd))[..32])
  {
    hide With, Absorbed;
    assert input[64 * k..] == BlockAt(input, k);
  }

  lemma {:induction false} AbsorbedNothing(m: Mode, input: seq<Byte>, counter: nat, flagsStart: Byte)
    ensures AbsorbedTo(m, input, 0, counter, flagsStart) == m.key
  {
  }

  lemma {:induction false} AbsorbedChunk(m: Mode, data: seq<Byte>, counter: nat)
    requires |data| % 64 == 0
    ensures Absorbed(m, data, counter, CHUNK_START) == BlocksCv(m, data, counter)
    decreases |data|
  {
    hide With;
    if data != [] {
      AbsorbedChunk(m, data[..|data| - 64], counter);
      WithNothing(m.flags);
    }
  }

  // Under the chunk flags that is a chunk's chaining value.
  lemma {:induction false} HashedChunk(m: Mode, input: seq<Byte>, counter: nat, cv: Cv)
    requires |input| <= 1024 && HashedTo(m, input, counter, CHUNK_START, CHUNK_END, cv)
    ensures cv == TreeCv(m, input, counter)
  {
    hide BlocksCv, TreeCv, Absorbed, With;
    var n := 64 * InnerBlocks(|input|);
    assert n == |input| - 64;
    AbsorbedChunk(m, input[..n], counter);
    WithNothing(m.flags);
    assert input[n..] == Pad(input[n..]);
    SmallTree(m, input, counter);
  }

  // One block is one compression.
  lemma {:induction false} HashedBlock(m: Mode, input: seq<Byte>, counter: nat, flagsStart: Byte, flagsEnd: Byte,
                                       cv: Cv)
    requires |input| == 64 && HashedTo(m, input, counter, flagsStart, flagsEnd, cv)
    ensures cv == m.compress(m.key, input, 64, counter, With(With(m.flags, flagsStart), flagsEnd))[..32]
  {
    hide With;
    assert input[0..] == input;
    AbsorbedNothing(m, input, counter, flagsStart);
  }

  /** Hashes every input into its own slot of `out`, from slot `off` on. */
  method HashMany(m: Mode, inputs: seq<seq<Byte>>, blocks: nat, counter: nat, incrementCounter: bool,
                  flagsStart: Byte, flagsEnd: Byte, out: array<Cv>, off: nat)
    requires blocks > 0 && forall i :: 0 <= i < |inputs| ==> |inputs[i]| == 64 * blocks
    requires off + |inputs| <= out.Length
    modifies out
    ensures forall i :: 0 <= i < |inputs| ==>
              HashedTo(m, inputs[i], if incrementCounter then counter + i else counter, flagsStart, flagsEnd,
                out[off + i])
    ensures forall j :: 0 <= j < out.Length && !(off <= j < off + |inputs|) ==> out[j] == old(out[j])
  {
    hide HashedTo;
    var n, c := 0, counter;
    while n < |inputs|
      invariant n <= |inputs| && c == if incrementCounter then counter + n else counter
      invariant forall i :: 0 <= i < n ==>
                  HashedTo(m, inputs[i], if incrementCounter then counter + i else counter, flagsStart, flagsEnd,
                    out[off + i])
      invariant forall j :: 0 <= j < out.Length && !(off <= j < off + n) ==> out[j] == old(out[j])
    {
      var cv := HashOne(m, inputs[n], blocks, c, flagsStart, flagsEnd);
      out[off + n] := cv;
      if incrementCounter {
        c := c + 1;
      }
      n := n + 1;
    }
  }

  lemma {:induction false} LeavesAt(m: Mode, data: seq<Byte>, counter: nat, i: nat)
    requires |data| > 0 && i < |Leaves(m, data, counter)|
    ensures 1024 * i < |data|
    ensures Leaves(m, data, counter)[i]
         == TreeCv(m, data[1024 * i..if 1024 * (i + 1) < |data| then 1024 * (i + 1) else |data|], counter + i)
  {
    hide TreeCv;
    if |data| > 1024 && i > 0 {
      var rest := data[1024..];
      LeavesAt(m, rest, counter + 1, i - 1);
      assert counter + 1 + (i - 1) == counter + i;
      var e := if 1024 * i < |rest| then 1024 * i else |rest|;
      assert rest[1024 * (i - 1)..e] == data[1024 * i..1024 + e];
    } else {
      assert |data| <= 1024 ==> data[0..|data|] == data;
    }
  }

  /** One chunk through a chunk state of its own. */
  method CompressChunk(m: Mode, input: seq<Byte>, counter: nat) returns (cv: Cv)
    requires |input| <= 1024
    ensures cv == TreeCv(m, input, counter)
  {
    hide TreeCv, Blake3Tree.ChunkOutput, ChainingValue;
    var chunk := new ChunkState(m.compress, m.key, m.flags);
    chunk.Reset(m.key, counter);
    chunk.Update(input);
    assert chunk.content == input;
    var output := chunk.ChunkOutput();
    SmallTree(m, input, counter);
    cv := ChainingValue(m.compress, output);
  }

  /** Hashes up to a SIMD degree of chunks; the last one may be partial. */
  method CompressChunksParallel(m: Mode, input: seq<Byte>, counter: nat, out: array<Cv>, off: nat) returns (n: nat)
    requires 0 < |input| && off + (|input| + 1023) / 1024 <= out.Length
    modifies out
    ensures n == (|input| + 1023) / 1024
    ensures out[off..off + n] == Leaves(m, input, counter)
    ensures forall j :: 0 <= j < out.Length && !(off <= j < off + n) ==> out[j] == old(out[j])
  {
    hide TreeCv, Leaves, HashedTo;
    var chunks: seq<seq<Byte>> := [];
    var position := 0;
    while |input| - position >= 1024
      invariant position == 1024 * |chunks| && position <= |input|
      invariant forall i :: 0 <= i < |chunks| ==> chunks[i] == input[1024 * i..1024 * (i + 1)]
    {
      chunks := chunks + [input[position..position + 1024]];
      position := position + 1024;
    }
    HashMany(m, chunks, 16, counter, true, CHUNK_START, CHUNK_END, out, off);
    n := |chunks|;
    if |input| > position {
      var cv := CompressChunk(m, input[position..], counter + n);
      out[off + n] := cv;
      n := n + 1;
    }
    assert |input| > position ==> out[off + n - 1] == TreeCv(m, input[position..], counter + |chunks|);
    AreLeaves(m, input, counter, chunks, out[off..off + n]);
  }

  lemma {:induction false} AreLeaves(m: Mode, input: seq<Byte>, counter: nat, chunks: seq<seq<Byte>>, r: seq<Cv>)
    requires |chunks| == |input| / 1024 && |r| == (|input| + 1023) / 1024 && |input| > 0
    requires forall i :: 0 <= i < |chunks| ==>
               chunks[i] == input[1024 * i..1024 * (i + 1)]
               && HashedTo(m, chunks[i], counter + i, CHUNK_START, CHUNK_END, r[i])
    requires |chunks| < |r| ==> r[|r| - 1] == TreeCv(m, input[1024 * |chunks|..], counter + |chunks|)
    ensures r == Leaves(m, input, counter)
  {
    hide TreeCv, HashedTo;
    forall i | 0 <= i < |r|
      ensures r[i] == Leaves(m, input, counter)[i]
    {
      if i < |chunks| {
        assert chunks[i] == input[1024 * i..1024 * (i + 1)];
        IsLeaf(m, input, counter, i, chunks[i], r[i]);
      } else {
        LeavesAt(m, input, counter, i);
        assert input[1024 * i..|input|] == input[1024 * |chunks|..];
      }
    }
  }

  lemma {:induction false} IsLeaf(m: Mode, input: seq<Byte>, counter: nat, i: nat, chunk: seq<Byte>, cv: Cv)
    requires 1024 * (i + 1) <= |input| && chunk == input[1024 * i..1024 * (i + 1)]
    requires HashedTo(m, chunk, counter + i, CHUNK_START, CHUNK_END, cv)
    ensures i < |Leaves(m, input, counter)| && cv == Leaves(m, input, counter)[i]
  {
    hide TreeCv, HashedTo;
    HashedChunk(m, chunk, counter + i, cv);
    LeavesAt(m, input, counter, i);
  }

  lemma {:induction false} SmallTree(m: Mode, data: seq<Byte>, counter: nat)
    requires |data| <= 1024
    ensures TreeCv(m, data, counter) == ChainingValue(m.compress, ChunkOutput(m, data, counter))
  {
  }

  lemma {:induction false} CondenseAt(m: Mode, cvs: seq<Cv>, i: nat)
    requires i < |Condense(m, cvs)|
    ensures Condense(m, cvs)[i] == if 2 * i + 1 < |cvs| then ParentCv(m, cvs[2 * i], cvs[2 * i + 1]) else cvs[2 * i]
  {
    if i > 0 {
      CondenseAt(m, cvs[2..], i - 1);
    }
  }

  /** One layer of parents over the first `num` children; an odd child moves up unchanged. */
  method CompressParentsParallel(m: Mode, children: array<Cv>, num: nat, out: array<Cv>, off: nat) returns (n: nat)
    requires 2 <= num <= children.Length && off + (num + 1) / 2 <= out.Length && out != children
    modifies out
    ensures n == (num + 1) / 2
    ensures out[off..off + n] == Condense(m, children[..num])
    ensures forall j :: 0 <= j < out.Length && !(off <= j < off + n) ==> out[j] == old(out[j])
  {
    hide TreeCv, Condense, HashedTo, ParentBlock, With;
    var parents: seq<seq<Byte>> := [];
    while num - 2 * |parents| >= 2
      invariant 2 * |parents| <= num
      invariant forall i :: 0 <= i < |parents| ==> parents[i] == ParentBlock(children[2 * i], children[2 * i + 1])
    {
      parents := parents + [ParentBlock(children[2 * |parents|], children[2 * |parents| + 1])];
    }
    HashMany(m.(flags := With(m.flags, PARENT)), parents, 1, 0, false, 0, 0, out, off);
    n := |parents|;
    if num > 2 * |parents| {
      out[off + n] := children[2 * |parents|];
      n := n + 1;
    }
    Condensed(m, children[..num], parents, out[off..off + n]);
  }

  lemma {:induction false} Condensed(m: Mode, row: seq<Cv>, parents: seq<seq<Byte>>, r: seq<Cv>)
    requires |parents| == |row| / 2 && |r| == (|row| + 1) / 2
    requires forall i :: 0 <= i < |parents| ==>
               parents[i] == ParentBlock(row[2 * i], row[2 * i + 1])
               && HashedTo(m.(flags := With(m.flags, PARENT)), parents[i], 0, 0, 0, r[i])
    requires |row| % 2 == 1 ==> r[|r| - 1] == row[|row| - 1]
    ensures r == Condense(m, row)
  {
    hide TreeCv, Condense, ParentBlock, With, HashedTo;
    forall i | 0 <= i < |r|
      ensures r[i] == Condense(m, row)[i]
    {
      CondenseAt(m, row, i);
      if i < |parents| {
        WithNothing(With(m.flags, PARENT));
        HashedBlock(m.(flags := With(m.flags, PARENT)), parents[i], 0, 0, 0, r[i]);
      }
    }
  }

  /** The row `cvs` stands for the subtree over `input`, the two children of a root left unmerged. */
  ghost predicate Stands(m: Mode, input: seq<Byte>, counter: nat, cvs: seq<Cv>) {
    && |cvs| >= 1
    && Merkle(m, cvs) == TreeCv(m, input, counter)
    && (|input| <= 1024 ==> |cvs| == 1)
    && (|input| > 1024 ==>
          && |cvs| >= 2
          && TreeOutput(m, input, counter) == ParentOutput(m, TopPair(m, cvs).0, TopPair(m, cvs).1))
  }

  lemma {:induction false} LeavesStand(m: Mode, input: seq<Byte>, counter: nat)
    ensures Stands(m, input, counter, Leaves(m, input, counter))
  {
    hide Merkle, TreeOutput, TopPair, TreeCv;
    TreeIsMerkle(m, input, counter);
    if |input| > 1024 {
      TreeIsTopPair(m, input, counter);
    }
  }

  // Two rows side by side stand for the whole input if the left one is a full power of two.
  lemma {:induction false} RowsJoin(m: Mode, input: seq<Byte>, counter: nat, a: seq<Cv>, b: seq<Cv>)
    requires |input| > 1024
    requires var n := LeftLen(|input|);
             Stands(m, input[..n], counter, a) && Stands(m, input[n..], counter + n / 1024, b)
    requires IsPow2(|a|) && |b| <= |a|
    ensures Stands(m, input, counter, a + b)
  {
    hide Merkle, TopPair, IsPow2, LeftLen, TreeOutput, TreeCv, ChainingValue, ParentOutput;
    TopPairOf(m, a, b);
    TreeSplit(m, input, counter);
  }

  lemma {:induction false} CondenseStands(m: Mode, input: seq<Byte>, counter: nat, cvs: seq<Cv>)
    requires Stands(m, input, counter, cvs) && |cvs| > 2
    ensures Stands(m, input, counter, Condense(m, cvs))
  {
    hide Merkle, TreeOutput, TopPair, TreeCv, Condense;
    CondenseMerkle(m, cvs);
    CondenseTopPair(m, cvs);
  }

  /** Slots the wide routine fills for a whole subtree of `chunks` chunks, a power of two. */
  function FullRow(degree: nat, chunks: nat): nat {
    if chunks == 1 then 1 else if degree == 1 then 2 else degree
  }

  /** A whole power of two of chunks, at least a SIMD degree of them. */
  ghost predicate Whole(simd: Simd, len: nat) {
    len % 1024 == 0 && IsPow2(len / 1024) && len / 1024 >= simd.degree
  }

  // A left subtree deep enough to split has at least a SIMD degree of chunks.
  lemma {:induction false} LeftIsWide(len: nat, degree: nat)
    requires IsPow2(degree) && len > 1024 * degree
    ensures LeftLen(len) / 1024 >= degree
    ensures degree >= 1
  {
    RoundDownBound((len - 1) / 1024, degree);
  }

  lemma {:induction false} LeftIsWhole(simd: Simd, len: nat)
    requires simd.Valid() && len > 1024 * simd.degree && simd.degree >= 1
    ensures Whole(simd, LeftLen(len))
  {
    LeftIsWide(len, simd.degree);
  }

  lemma {:induction false} DegreeIsPositive(simd: Simd)
    requires simd.Valid()
    ensures simd.degree >= 1
  {
  }

  lemma {:induction false} FewChunks(simd: Simd, len: nat)
    requires len <= 1024 * simd.degree
    ensures Whole(simd, len) ==> (len + 1023) / 1024 == FullRow(simd.degree, len / 1024)
  {
  }

  lemma {:induction false} WholeHalves(chunks: nat, degree: nat)
    requires IsPow2(chunks) && IsPow2(degree) && chunks > degree
    ensures chunks % 2 == 0 && IsPow2(chunks / 2) && chunks / 2 >= degree
    ensures LeftLen(1024 * chunks) == 1024 * (chunks / 2)
  {
    HalfOrLess(degree, chunks);
    LeftLenUnique(1024 * chunks, chunks / 2);
  }

  lemma {:induction false} HalfOrLess(p: nat, q: nat)
    requires IsPow2(p) && IsPow2(q) && p < q
    ensures q % 2 == 0 && IsPow2(q / 2) && p <= q / 2
  {
    if p > 1 {
      HalfOrLess(p / 2, q / 2);
    }
  }

  method CompressSubtreeWide(m: Mode, simd: Simd, input: seq<Byte>, counter: nat, out: array<Cv>, off: nat)
    returns (n: nat)
    requires simd.Valid() && 0 < |input|
    requires off + simd.MaxOr2() <= out.Length
    modifies out
    ensures 1 <= n <= (if simd.degree > 2 then simd.degree else 2)
    ensures Stands(m, input, counter, out[off..off + n])
    ensures Whole(simd, |input|) ==> n == FullRow(simd.degree, |input| / 1024)
    ensures forall j :: 0 <= j < out.Length && !(off <= j < off + n) ==> out[j] == old(out[j])
    decreases |input|
  {
    hide Stands, Merkle, LeftLen, Leaves, Condense, Whole, IsPow2, RoundDown;
    if |input| <= simd.degree * 1024 {
      n := CompressChunksParallel(m, input, counter, out, off);
      LeavesStand(m, input, counter);
      FewChunks(simd, |input|);
      return;
    }
    DegreeIsPositive(simd);
    var leftLen := LeftLen(|input|);
    LeftIsWhole(simd, |input|);
    var cvArray := new Cv[2 * simd.MaxOr2()](_ => m.key);
    var degree := simd.degree;
    if leftLen > 1024 && degree == 1 {
      degree := 2;
    }
    var leftN := CompressSubtreeWide(m, simd, input[..leftLen], counter, cvArray, 0);
    ghost var a := cvArray[..leftN];
    assert leftN == degree;
    var rightN := CompressSubtreeWide(m, simd, input[leftLen..], counter + leftLen / 1024, cvArray, degree);
    ghost var b := cvArray[degree..degree + rightN];
    assert cvArray[..leftN] == a;
    WideJoin(m, simd, input, counter, a, b);
    SideBySide(cvArray[..], leftN, rightN);
    n := JoinRows(m, input, counter, cvArray, leftN, rightN, out, off);
  }

  /** Two values become the row themselves; more are merged once. */
  method JoinRows(m: Mode, ghost input: seq<Byte>, ghost counter: nat, cvArray: array<Cv>, leftN: nat, rightN: nat,
                  out: array<Cv>, off: nat)
    returns (n: nat)
    requires 1 <= rightN <= leftN && leftN + rightN <= cvArray.Length && cvArray != out
    requires off + (if leftN == 1 then 2 else (leftN + rightN + 1) / 2) <= out.Length
    requires Stands(m, input, counter, cvArray[..leftN + rightN])
    modifies out
    ensures n == if leftN == 1 then 2 else (leftN + rightN + 1) / 2
    ensures Stands(m, input, counter, out[off..off + n])
    ensures forall j :: 0 <= j < out.Length && !(off <= j < off + n) ==> out[j] == old(out[j])
  {
    hide Stands, Condense;
    if leftN == 1 {
      out[off], out[off + 1] := cvArray[0], cvArray[1];
      n := 2;
      assert out[off..off + 2] == cvArray[..2];
    } else {
      CondenseStands(m, input, counter, cvArray[..leftN + rightN]);
      n := CompressParentsParallel(m, cvArray, leftN + rightN, out, off);
    }
  }

  lemma {:induction false} SideBySide(row: seq<Cv>, i: nat, j: nat)
    requires i + j <= |row|
    ensures row[..i + j] == row[..i] + row[i..i + j]
  {
  }

  lemma {:induction false} WideJoin(m: Mode, simd: Simd, input: seq<Byte>, counter: nat, a: seq<Cv>, b: seq<Cv>)
    requires simd.Valid() && |input| > 1024 * simd.degree && simd.degree >= 1
    requires var n := LeftLen(|input|);
             && Stands(m, input[..n], counter, a) && Stands(m, input[n..], counter + n / 1024, b)
             && |a| == FullRow(simd.degree, n / 1024)
             && |b| <= (if simd.degree > 2 then simd.degree else 2)
             && (Whole(simd, |input| - n) ==> |b| == FullRow(simd.degree, (|input| - n) / 1024))
    ensures Stands(m, input, counter, a + b)
    ensures 1 <= |b| <= |a|
    ensures |a| == 1 ==> |b| == 1
    ensures Whole(simd, |input|) ==>
              (if |a| == 1 then 2 else (|a| + |b| + 1) / 2) == FullRow(simd.degree, |input| / 1024)
  {
    hide TreeCv, TreeOutput, Merkle, TopPair, LeftLen, RoundDown;
    assert IsPow2(1) && IsPow2(2);
    assert IsPow2(|a|);
    RowsJoin(m, input, counter, a, b);
    if Whole(simd, |input|) {
      WholeHalves(|input| / 1024, simd.degree);
    }
  }

  /** Condenses a subtree of more than one chunk to the two children of its root. */
  method CompressSubtreeToParentNode(m: Mode, simd: Simd, input: seq<Byte>, counter: nat) returns (left: Cv, right: Cv)
    requires simd.Valid() && |input| > 1024
    ensures var n := LeftLen(|input|);
            left == TreeCv(m, input[..n], counter) && right == TreeCv(m, input[n..], counter + n / 1024)
  {
    hide Merkle, TreeOutput, TreeCv, Condense, IsPow2, LeftLen;
    var cvArray := new Cv[simd.MaxOr2()](_ => m.key);
    var num := CompressSubtreeWide(m, simd, input, counter, cvArray, 0);
    assert cvArray[0..num] == cvArray[..num];
    var outArray := new Cv[simd.MaxOr2()](_ => m.key);
    while num > 2
      invariant 2 <= num <= cvArray.Length
      invariant Stands(m, input, counter, cvArray[..num])
      decreases num
    {
      CondenseStands(m, input, counter, cvArray[..num]);
      num := CompressParentsParallel(m, cvArray, num, outArray, 0);
      ghost var row := outArray[0..num];
      forall i | 0 <= i < num { cvArray[i] := outArray[i]; }
      assert cvArray[..num] == row;
    }
    left, right := cvArray[0], cvArray[1];
    LastTwo(m, left, right);
    assert cvArray[..num] == [left, right];
    TreeSplit(m, input, counter);
    var n := LeftLen(|input|);
    ParentInjective(m, left, right, TreeCv(m, input[..n], counter), TreeCv(m, input[n..], counter + n / 1024));
  }

  lemma {:induction false} LastTwo(m: Mode, left: Cv, right: Cv)
    ensures TopPair(m, [left, right]) == (left, right)
  {
    assert RoundDown(1) == 1;
    var cvs := [left, right];
    assert cvs[..1] == [left] && cvs[1..] == [right];
  }

  lemma {:induction false} ParentInjective(m: Mode, a: Cv, b: Cv, c: Cv, d: Cv)
    requires ParentOutput(m, a, b) == ParentOutput(m, c, d)
    ensures a == c && b == d
  {
    assert a == ParentBlock(a, b)[..32] && b == ParentBlock(a, b)[32..];
    assert c == ParentBlock(c, d)[..32] && d == ParentBlock(c, d)[32..];
  }
}
