// The chaining value stack of blake3.c (section 5.1.2 of the BLAKE3 paper, with
// the lazy merging of blake3.c:425-458): which subtree each entry stands for.
module Blake3Stack {
  import opened Bits
  import opened Blake3Tree

  /** n chunks, the last h of them the newest entry, unmerged. */
  predicate Shape(n: nat, h: nat) {
    if n == 0 then h == 0 else h <= n && IsPow2(h) && Aligned(n - h, h)
  }

  /** The sizes, in chunks, of the entries for that shape. */
  function Sizes(n: nat, h: nat): seq<nat>
    requires Shape(n, h)
  {
    if n == 0 then [] else Decompose(n - h) + [h]
  }

  /** No two entries wait to be merged. */
  predicate Merged(n: nat, h: nat)
    requires Shape(n, h)
  {
    n == 0 || (IsPow2(2 * h) && Aligned(n - h, 2 * h))
  }

  /** The newest two entries are the two halves of one subtree. */
  predicate Paired(n: nat, h: nat) {
    n > 0 && Shape(n, h) && Shape(n, 2 * h)
  }

  /** The chaining value of the subtree of `chunks` chunks that starts at chunk `at`. */
  function SubtreeCv(m: Mode, data: seq<Byte>, at: nat, chunks: nat): Cv
    requires 1024 * (at + chunks) <= |data|
  {
    TreeCv(m, data[1024 * at..1024 * (at + chunks)], at)
  }

  /** Entry i of the stack is the subtree over its own range of chunks. */
  ghost predicate Represents(m: Mode, data: seq<Byte>, stack: seq<Cv>, sizes: seq<nat>) {
    && |stack| == |sizes|
    && 1024 * Sum(sizes) <= |data|
    && forall i :: 0 <= i < |sizes| ==> EntryOk(m, data, stack[i], sizes, i)
  }

  ghost predicate EntryOk(m: Mode, data: seq<Byte>, cv: Cv, sizes: seq<nat>, i: nat)
    requires i < |sizes| && 1024 * Sum(sizes) <= |data|
  {
    SumTake(sizes, i);
    cv == SubtreeCv(m, data, Sum(sizes[..i]), sizes[i])
  }

  lemma {:induction false} SumTake(sizes: seq<nat>, i: nat)
    requires i < |sizes|
    ensures Sum(sizes[..i]) + sizes[i] <= Sum(sizes)
    ensures Sum(sizes[..i + 1]) == Sum(sizes[..i]) + sizes[i]
  {
    assert sizes == sizes[..i] + [sizes[i]] + sizes[i + 1..];
    assert sizes[..i + 1] == sizes[..i] + [sizes[i]];
    SumAppend(sizes[..i], [sizes[i]]);
    SumAppend(sizes[..i] + [sizes[i]], sizes[i + 1..]);
  }

  lemma {:induction false} SizesSum(n: nat, h: nat)
    requires Shape(n, h)
    ensures Sum(Sizes(n, h)) == n
  {
    if n > 0 {
      SumAppend(Decompose(n - h), [h]);
    }
  }

  // More input never disturbs the entries.
  lemma {:induction false} MoreData(m: Mode, data: seq<Byte>, more: seq<Byte>, stack: seq<Cv>, sizes: seq<nat>)
    requires Represents(m, data, stack, sizes)
    ensures Represents(m, data + more, stack, sizes)
  {
    hide TreeCv, Sum;
    forall i | 0 <= i < |sizes|
      ensures EntryOk(m, data + more, stack[i], sizes, i)
    {
      SumTake(sizes, i);
      var a, b := Sum(sizes[..i]), sizes[i];
      assert EntryOk(m, data, stack[i], sizes, i);
      assert (data + more)[1024 * a..1024 * (a + b)] == data[1024 * a..1024 * (a + b)];
    }
  }

  lemma {:induction false} Push(m: Mode, data: seq<Byte>, stack: seq<Cv>, sizes: seq<nat>, cv: Cv, chunks: nat)
    requires Represents(m, data, stack, sizes)
    requires 1024 * (Sum(sizes) + chunks) <= |data|
    requires cv == SubtreeCv(m, data, Sum(sizes), chunks)
    ensures Represents(m, data, stack + [cv], sizes + [chunks])
    ensures Sum(sizes + [chunks]) == Sum(sizes) + chunks
  {
    hide TreeCv, SubtreeCv;
    var all := sizes + [chunks];
    SumAppend(sizes, [chunks]);
    forall i | 0 <= i < |all|
      ensures EntryOk(m, data, (stack + [cv])[i], all, i)
    {
      SumTake(all, i);
      assert all[..i] == sizes[..i];
      if i == |sizes| {
        assert sizes[..i] == sizes;
      } else {
        assert EntryOk(m, data, stack[i], sizes, i);
      }
    }
  }

  lemma {:induction false} Pop(m: Mode, data: seq<Byte>, stack: seq<Cv>, sizes: seq<nat>, cv: Cv, chunks: nat)
    requires Represents(m, data, stack + [cv], sizes + [chunks])
    ensures 1024 * (Sum(sizes) + chunks) <= |data|
    ensures Represents(m, data, stack, sizes)
    ensures cv == SubtreeCv(m, data, Sum(sizes), chunks)
  {
    hide TreeCv, SubtreeCv;
    var all := sizes + [chunks];
    SumAppend(sizes, [chunks]);
    forall i | 0 <= i < |sizes|
      ensures EntryOk(m, data, stack[i], sizes, i)
    {
      assert EntryOk(m, data, (stack + [cv])[i], all, i);
      SumTake(all, i);
      assert all[..i] == sizes[..i];
    }
    assert EntryOk(m, data, (stack + [cv])[|sizes|], all, |sizes|);
    assert all[..|sizes|] == sizes;
  }

  // Two neighbouring subtrees of h whole chunks have the subtree of 2h as their parent.
  lemma {:induction false} Siblings(m: Mode, data: seq<Byte>, at: nat, h: nat)
    requires IsPow2(h) && 1024 * (at + 2 * h) <= |data|
    ensures SubtreeCv(m, data, at, 2 * h)
         == ParentCv(m, SubtreeCv(m, data, at, h), SubtreeCv(m, data, at + h, h))
  {
    hide TreeCv, LeftLen;
    var whole := data[1024 * at..1024 * (at + 2 * h)];
    LeftLenUnique(|whole|, h);
    TreeSplit(m, whole, at);
    assert whole[..1024 * h] == data[1024 * at..1024 * (at + h)];
    assert whole[1024 * h..] == data[1024 * (at + h)..1024 * (at + h + h)];
  }

  // Merging the top two entries of equal size.
  lemma {:induction false} MergeTop(m: Mode, data: seq<Byte>, stack: seq<Cv>, sizes: seq<nat>, left: Cv, right: Cv,
                                    h: nat)
    requires IsPow2(h) && Represents(m, data, stack + [left, right], sizes + [h, h])
    ensures Represents(m, data, stack + [ParentCv(m, left, right)], sizes + [2 * h])
  {
    hide TreeCv, SubtreeCv;
    assert stack + [left, right] == (stack + [left]) + [right];
    assert sizes + [h, h] == (sizes + [h]) + [h];
    Pop(m, data, stack + [left], sizes + [h], right, h);
    Pop(m, data, stack, sizes, left, h);
    SumAppend(sizes, [h]);
    Siblings(m, data, Sum(sizes), h);
    Push(m, data, stack, sizes, ParentCv(m, left, right), 2 * h);
  }

  // While the stack is longer than the bit count, the top two entries are siblings.
  lemma {:induction false} TopIsSibling(n: nat, h: nat)
    requires Shape(n, h) && |Sizes(n, h)| > PopCnt(n)
    ensures n > 0 && 2 * h <= n && Shape(n, 2 * h)
    ensures Sizes(n, h) == Decompose(n - 2 * h) + [h, h]
    ensures Sizes(n, 2 * h) == Decompose(n - 2 * h) + [2 * h]
  {
    hide Decompose, PopCnt, Aligned;
    var k := n - h;
    AlignedStep(k, h);
    DecomposeLength(k);
    if Aligned(k, 2 * h) {
      PopCntSnoc(k, h);
    } else {
      DecomposeSnoc(k - h, h);
      assert n - 2 * h == k - h && k - h + h == k;
      assert Decompose(k) == Decompose(k - h) + [h];
      assert Sizes(n, h) == Decompose(k) + [h];
    }
  }

  // Once it is as long as the bit count, it is the binary decomposition itself.
  lemma {:induction false} ShortIsMerged(n: nat, h: nat)
    requires Shape(n, h) && |Sizes(n, h)| <= PopCnt(n)
    ensures Merged(n, h) && Sizes(n, h) == Decompose(n)
  {
    if n > 0 {
      var k := n - h;
      AlignedStep(k, h);
      DecomposeLength(k);
      if Aligned(k, 2 * h) {
        DecomposeSnoc(k, h);
      } else {
        PopCntSnoc(k - h, h);
        assert k - h + h == k && k - h + 2 * h == n;
        PopCntAdd(k - h, 2 * h);
      }
    }
  }

  // The newest entry may sit on a stack that counts the chunks before it.
  lemma {:induction false} PushShape(n: nat, h: nat)
    requires IsPow2(h) && Aligned(n, h)
    ensures Shape(n + h, h) && Sizes(n + h, h) == Decompose(n) + [h]
  {
    assert n + h - h == n;
  }

  // At most one entry per bit of the chunk count, and one more: 55 entries hold any input below 2^64 bytes.
  lemma {:induction false} DepthBound(n: nat, h: nat)
    requires Shape(n, h) && n < 0x40_0000_0000_0000
    ensures |Sizes(n, h)| <= 55
  {
    if n > 0 {
      DecomposeLength(n - h);
      Exp2Of54();
      PopCntBound(n - h, 54);
    }
  }

  // Joining entry i to everything after it: the split the tree itself makes.
  lemma {:induction false} FoldStep(m: Mode, data: seq<Byte>, at: nat, h: nat, right: Output)
    requires IsPow2(h) && 1024 * (at + h) < |data| <= 1024 * (at + 2 * h)
    requires right == TreeOutput(m, data[1024 * (at + h)..], at + h)
    ensures TreeOutput(m, data[1024 * at..], at)
         == ParentOutput(m, SubtreeCv(m, data, at, h), ChainingValue(m.compress, right))
  {
    hide TreeOutput, LeftLen, IsPow2, ParentOutput;
    var whole := data[1024 * at..];
    LeftLenUnique(|whole|, h);
    TreeSplit(m, whole, at);
    assert whole[..1024 * h] == data[1024 * at..1024 * (at + h)];
    assert whole[1024 * h..] == data[1024 * (at + h)..];
  }

  lemma {:induction false} PairedSizes(n: nat, h: nat)
    requires Paired(n, h)
    ensures 1 <= h && 2 * h <= n && IsPow2(h) && IsPow2(2 * h) && Aligned(n - 2 * h, 2 * h)
    ensures Sizes(n, h) == Decompose(n - 2 * h) + [h, h]
  {
    hide Decompose;
    DecomposeSnoc(n - 2 * h, h);
    assert n - 2 * h + h == n - h;
  }

  // A half of an aligned subtree, pushed first, then the other half.
  lemma {:induction false} PairShape(n: nat, s: nat)
    requires IsPow2(s) && s > 1 && Aligned(n, s)
    ensures IsPow2(s / 2) && Aligned(n, s / 2) && Aligned(n + s / 2, s / 2)
    ensures Paired(n + s, s / 2)
  {
    var h := s / 2;
    AlignedWeaker(n, h, s);
    Pow2Aligned(h, h);
    AlignedSum(n, h, h);
    assert n + s - s == n && n + s - h == n + h;
  }

  // What joins the parts of k chunks to a last part of at most g chunks.
  lemma {:induction false} FoldBounds(k: nat, g: nat, i: nat, len: nat)
    requires IsPow2(g) && Aligned(k, g) && 0 < i <= |Decompose(k)|
    requires 1024 * k < len <= 1024 * (k + g)
    ensures var at, h := Sum(Decompose(k)[..i - 1]), Decompose(k)[i - 1];
            IsPow2(h) && at + h == Sum(Decompose(k)[..i]) && 1024 * (at + h) < len <= 1024 * (at + 2 * h)
  {
    hide Decompose, Aligned, IsPow2;
    DecomposeDominates(k, g, i - 1);
    SumTake(Decompose(k), i - 1);
  }

  // The newest two entries of a paired stack are the children of the subtree they end.
  lemma {:induction false} PairOutput(m: Mode, data: seq<Byte>, stack: seq<Cv>, k: nat, h: nat, left: Cv, right: Cv)
    requires IsPow2(h) && |data| == 1024 * (k + 2 * h)
    requires Represents(m, data, stack + [left, right], Decompose(k) + [h, h])
    ensures ParentOutput(m, left, right) == TreeOutput(m, data[1024 * k..], k)
  {
    hide TreeOutput, ParentOutput, SubtreeCv, ChainingValue, Represents, Decompose;
    var d := Decompose(k);
    assert stack + [left, right] == (stack + [left]) + [right];
    assert d + [h, h] == (d + [h]) + [h];
    Pop(m, data, stack + [left], d + [h], right, h);
    Pop(m, data, stack, d, left, h);
    SumAppend(d, [h]);
    LastSubtree(m, data, k + h, h);
    FoldStep(m, data, k, h, TreeOutput(m, data[1024 * (k + h)..], k + h));
  }

  lemma {:induction false} LastSubtree(m: Mode, data: seq<Byte>, at: nat, h: nat)
    requires |data| == 1024 * (at + h)
    ensures SubtreeCv(m, data, at, h) == ChainingValue(m.compress, TreeOutput(m, data[1024 * at..], at))
  {
    hide TreeOutput, ChainingValue;
    assert data[1024 * at..1024 * (at + h)] == data[1024 * at..];
  }

  // One turn of the roll-up: entry i - 1 joins everything after it.
  lemma {:induction false} FoldEntry(m: Mode, data: seq<Byte>, stack: seq<Cv>, sizes: seq<nat>, k: nat, g: nat, i: nat,
                                     output: Output)
    requires Represents(m, data, stack, sizes)
    requires Decompose(k) <= sizes && 0 < i <= |Decompose(k)|
    requires IsPow2(g) && Aligned(k, g) && 1024 * k < |data| <= 1024 * (k + g)
    requires 1024 * Sum(Decompose(k)[..i]) <= |data|
    requires output == TreeOutput(m, data[1024 * Sum(Decompose(k)[..i])..], Sum(Decompose(k)[..i]))
    ensures var at := Sum(Decompose(k)[..i - 1]);
            1024 * at <= |data|
            && ParentOutput(m, stack[i - 1], ChainingValue(m.compress, output)) == TreeOutput(m, data[1024 * at..], at)
  {
    hide TreeOutput, ParentOutput, SubtreeCv, IsPow2, ChainingValue, Aligned, Decompose, Sum;
    var d := Decompose(k);
    FoldBounds(k, g, i, |data|);
    assert EntryOk(m, data, stack[i - 1], sizes, i - 1);
    assert sizes[..i - 1] == d[..i - 1] && sizes[i - 1] == d[i - 1];
    FoldStep(m, data, Sum(d[..i - 1]), d[i - 1], output);
  }
}
