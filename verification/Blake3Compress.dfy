// The compression function of BLAKE3 in its two forms: the C code reads the
// message through a table of schedules, the Java code permutes the message in
// place after every round. Section 2.2 of the BLAKE3 paper has one permutation.
module Blake3Compress {
  type Word = bv32

  /** Sixteen words: a state, or a message block. */
  type Words = s: seq<Word> | |s| == 16 witness seq(16, _ => 0)

  const IV: seq<Word> := [0x6A09E667, 0xBB67AE85, 0x3C6EF372, 0xA54FF53A, 0x510E527F, 0x9B05688C, 0x1F83D9AB,
    0x5BE0CD19]

  const MSG_PERM: seq<nat> := [2, 6, 3, 10, 7, 0, 4, 13, 1, 11, 12, 5, 9, 14, 15, 8]

  const MSG_SCHEDULE: seq<seq<nat>> := [
    [0, 1, 2, 3, 4, 5, 6, 7, 8, 9, 10, 11, 12, 13, 14, 15],
    [2, 6, 3, 10, 7, 0, 4, 13, 1, 11, 12, 5, 9, 14, 15, 8],
    [3, 4, 10, 12, 13, 2, 7, 14, 6, 5, 9, 0, 11, 15, 8, 1],
    [10, 7, 12, 9, 14, 3, 13, 15, 4, 0, 11, 2, 5, 8, 1, 6],
    [12, 13, 9, 11, 15, 10, 14, 8, 7, 2, 5, 3, 0, 1, 6, 4],
    [9, 14, 11, 5, 8, 12, 15, 1, 13, 3, 0, 10, 2, 6, 4, 7],
    [11, 15, 5, 0, 1, 9, 8, 6, 14, 10, 2, 12, 3, 4, 7, 13]
  ]

  // ---------- words ----------

  function Add(x: Word, y: Word): Word {
    x + y
  }

  function Xor(x: Word, y: Word): Word {
    x ^ y
  }

  function Rotate(x: Word, n: nat): Word
    requires n < 32
  {
    x.RotateRight(n)
  }

  /** The C rotation. */
  function Rotr32(w: Word, c: nat): Word
    requires 0 < c < 32
  {
    (w >> c) | (w << (32 - c))
  }

  lemma {:induction false} RotationAgrees(w: Word)
    ensures Rotr32(w, 16) == Rotate(w, 16) && Rotr32(w, 12) == Rotate(w, 12)
    ensures Rotr32(w, 8) == Rotate(w, 8) && Rotr32(w, 7) == Rotate(w, 7)
  {
  }

  lemma {:induction false} RotationsAgree()
    ensures forall w :: Rotr32(w, 16) == Rotate(w, 16) && Rotr32(w, 12) == Rotate(w, 12)
    ensures forall w :: Rotr32(w, 8) == Rotate(w, 8) && Rotr32(w, 7) == Rotate(w, 7)
  {
    hide Rotr32, Rotate;
    forall w
      ensures Rotr32(w, 16) == Rotate(w, 16) && Rotr32(w, 12) == Rotate(w, 12)
      ensures Rotr32(w, 8) == Rotate(w, 8) && Rotr32(w, 7) == Rotate(w, 7)
    {
      RotationAgrees(w);
    }
  }

  // ---------- the specification ----------

  datatype Quad = Quad(a: Word, b: Word, c: Word, d: Word)

  /** Half of the quarter-round function, with rotations r and r'. */
  function Half(q: Quad, m: Word, r: nat, r': nat): Quad
    requires r < 32 && r' < 32
  {
    var a := Add(Add(q.a, q.b), m);
    var d := Rotate(Xor(q.d, a), r);
    var c := Add(q.c, d);
    Quad(a, Rotate(Xor(q.b, c), r'), c, d)
  }

  function Mix(q: Quad, x: Word, y: Word): Quad {
    Half(Half(q, x, 16, 12), y, 8, 7)
  }

  function Pick(s: Words, a: nat, b: nat, c: nat, d: nat): Quad
    requires a < 16 && b < 16 && c < 16 && d < 16
  {
    Quad(s[a], s[b], s[c], s[d])
  }

  function Put(s: Words, a: nat, b: nat, c: nat, d: nat, q: Quad): Words
    requires a < 16 && b < 16 && c < 16 && d < 16
  {
    s[a := q.a][b := q.b][c := q.c][d := q.d]
  }

  function G(s: Words, a: nat, b: nat, c: nat, d: nat, x: Word, y: Word): Words
    requires a < 16 && b < 16 && c < 16 && d < 16
  {
    Put(s, a, b, c, d, Mix(Pick(s, a, b, c, d), x, y))
  }

  function Columns(s: Words, m: Words): Words {
    G(G(G(G(s, 0, 4, 8, 12, m[0], m[1]), 1, 5, 9, 13, m[2], m[3]), 2, 6, 10, 14, m[4], m[5]), 3, 7, 11, 15, m[6], m[7])
  }

  function Diagonals(s: Words, m: Words): Words {
    var half := G(G(s, 0, 5, 10, 15, m[8], m[9]), 1, 6, 11, 12, m[10], m[11]);
    G(G(half, 2, 7, 8, 13, m[12], m[13]), 3, 4, 9, 14, m[14], m[15])
  }

  function Round(s: Words, m: Words): Words {
    Diagonals(Columns(s, m), m)
  }

  function Select(m: Words, indices: seq<nat>): Words
    requires |indices| == 16 && forall i :: 0 <= i < 16 ==> indices[i] < 16
  {
    seq(16, i requires 0 <= i < 16 => m[indices[i]])
  }

  function Permute(m: Words): Words {
    Select(m, MSG_PERM)
  }

  /** The message as permuted before round n. */
  function Permuted(m: Words, n: nat): Words {
    if n == 0 then m else Permute(Permuted(m, n - 1))
  }

  function Rounds(s: Words, m: Words, n: nat): Words {
    if n == 0 then s else Round(Rounds(s, m, n - 1), Permuted(m, n - 1))
  }

  function Start(cv: seq<Word>, low: Word, high: Word, blockLen: Word, flags: Word): Words
    requires |cv| == 8
  {
    cv + IV[..4] + [low, high, blockLen, flags]
  }

  /** All sixteen output words; the first eight are the chaining value. */
  function Compressed(cv: seq<Word>, block: Words, low: Word, high: Word, blockLen: Word, flags: Word): Words
    requires |cv| == 8
  {
    Folded(Rounds(Start(cv, low, high, blockLen, flags), block, 7), cv)
  }

  /** Both halves of the final state, the second fed forward. */
  function Folded(s: Words, cv: seq<Word>): Words
    requires |cv| == 8
  {
    seq(16, i requires 0 <= i < 16 => if i < 8 then Xor(s[i], s[i + 8]) else Xor(s[i], cv[i - 8]))
  }

  // Row n of the schedule is the permutation, n times over.
  lemma {:induction false} ScheduleIsPermuted(m: Words, n: nat)
    requires n < 7
    ensures |MSG_SCHEDULE[n]| == 16 && forall i :: 0 <= i < 16 ==> MSG_SCHEDULE[n][i] < 16
    ensures Select(m, MSG_SCHEDULE[n]) == Permuted(m, n)
  {
    if n > 0 {
      ScheduleIsPermuted(m, n - 1);
      RowFollows(n);
    }
  }

  lemma {:induction false} RowFollows(n: nat)
    requires 0 < n < 7
    ensures forall i :: 0 <= i < 16 ==> MSG_SCHEDULE[n][i] == MSG_SCHEDULE[n - 1][MSG_PERM[i]]
  {
    if n == 1 {
    } else if n == 2 {
    } else if n == 3 {
    } else if n == 4 {
    } else if n == 5 {
    } else {
    }
  }

  // ---------- the C code ----------

  /** Half of g, with rotations r and r'. */
  method HalfC(state: array<Word>, a: nat, b: nat, c: nat, d: nat, m: Word, r: nat, r': nat)
    requires state.Length == 16 && a < 16 && b < 16 && c < 16 && d < 16
    requires a != b && a != c && a != d && b != c && b != d && c != d
    requires (r == 16 && r' == 12) || (r == 8 && r' == 7)
    modifies state
    ensures state[..] == Put(old(state[..]), a, b, c, d, Half(Pick(old(state[..]), a, b, c, d), m, r, r'))
  {
    hide Add, Xor, Rotate, Rotr32;
    RotationsAgree();
    state[a] := Add(Add(state[a], state[b]), m);
    state[d] := Rotr32(Xor(state[d], state[a]), r);
    state[c] := Add(state[c], state[d]);
    state[b] := Rotr32(Xor(state[b], state[c]), r');
  }

  method MixC(state: array<Word>, a: nat, b: nat, c: nat, d: nat, x: Word, y: Word)
    requires state.Length == 16 && a < 16 && b < 16 && c < 16 && d < 16
    requires a != b && a != c && a != d && b != c && b != d && c != d
    modifies state
    ensures state[..] == G(old(state[..]), a, b, c, d, x, y)
  {
    hide Half;
    HalfC(state, a, b, c, d, x, 16, 12);
    PutTwice(old(state[..]), a, b, c, d, Half(Pick(old(state[..]), a, b, c, d), x, 16, 12));
    HalfC(state, a, b, c, d, y, 8, 7);
  }

  lemma {:induction false} PutTwice(s: Words, a: nat, b: nat, c: nat, d: nat, q: Quad)
    requires a < 16 && b < 16 && c < 16 && d < 16
    requires a != b && a != c && a != d && b != c && b != d && c != d
    ensures Pick(Put(s, a, b, c, d, q), a, b, c, d) == q
    ensures forall p :: Put(Put(s, a, b, c, d, q), a, b, c, d, p) == Put(s, a, b, c, d, p)
  {
  }

  method RoundFn(state: array<Word>, msg: Words, round: nat)
    requires state.Length == 16 && round < 7
    modifies state
    ensures state[..] == Round(old(state[..]), Permuted(msg, round))
  {
    hide G, Permuted;
    ScheduleIsPermuted(msg, round);
    var schedule := MSG_SCHEDULE[round];
    ghost var m := Permuted(msg, round);
    assert forall i :: 0 <= i < 16 ==> msg[schedule[i]] == m[i] by {
      assert forall i :: 0 <= i < 16 ==> Select(msg, schedule)[i] == msg[schedule[i]];
    }
    MixC(state, 0, 4, 8, 12, msg[schedule[0]], msg[schedule[1]]);
    MixC(state, 1, 5, 9, 13, msg[schedule[2]], msg[schedule[3]]);
    MixC(state, 2, 6, 10, 14, msg[schedule[4]], msg[schedule[5]]);
    MixC(state, 3, 7, 11, 15, msg[schedule[6]], msg[schedule[7]]);
    MixC(state, 0, 5, 10, 15, msg[schedule[8]], msg[schedule[9]]);
    MixC(state, 1, 6, 11, 12, msg[schedule[10]], msg[schedule[11]]);
    MixC(state, 2, 7, 8, 13, msg[schedule[12]], msg[schedule[13]]);
    MixC(state, 3, 4, 9, 14, msg[schedule[14]], msg[schedule[15]]);
  }

  method CompressPre(state: array<Word>, cv: seq<Word>, block: Words, low: Word, high: Word, blockLen: Word,
                     flags: Word)
    requires state.Length == 16 && |cv| == 8
    modifies state
    ensures state[..] == Rounds(Start(cv, low, high, blockLen, flags), block, 7)
  {
    hide Round, Permuted;
    forall i | 0 <= i < 16 {
      state[i] := Start(cv, low, high, blockLen, flags)[i];
    }
    for round := 0 to 7
      invariant state[..] == Rounds(Start(cv, low, high, blockLen, flags), block, round)
    {
      RoundFn(state, block, round);
    }
  }

  method CompressInPlace(cv: array<Word>, block: Words, low: Word, high: Word, blockLen: Word, flags: Word)
    requires cv.Length == 8
    modifies cv
    ensures cv[..] == Compressed(old(cv[..]), block, low, high, blockLen, flags)[..8]
  {
    hide Rounds, Xor, Start;
    var state := new Word[16];
    CompressPre(state, cv[..], block, low, high, blockLen, flags);
    for i := 0 to 8
      invariant state[..] == Rounds(Start(old(cv[..]), low, high, blockLen, flags), block, 7)
      invariant forall k :: 0 <= k < i ==> cv[k] == Xor(state[k], state[k + 8])
    {
      cv[i] := Xor(state[i], state[i + 8]);
    }
  }

  method CompressXof(cv: seq<Word>, block: Words, low: Word, high: Word, blockLen: Word, flags: Word)
    returns (out: seq<Word>)
    requires |cv| == 8
    ensures out == Compressed(cv, block, low, high, blockLen, flags)
  {
    hide Rounds, Xor, Start;
    var state := new Word[16];
    CompressPre(state, cv, block, low, high, blockLen, flags);
    out := seq(8, i requires 0 <= i < 8 reads state => Xor(state[i], state[i + 8]))
           + seq(8, i requires 0 <= i < 8 reads state => Xor(state[i + 8], cv[i]));
  }

  // ---------- the Java code ----------

  method HalfJava(s: array<Word>, a: nat, b: nat, c: nat, d: nat, m: Word, r: nat, r': nat)
    requires s.Length == 16 && a < 16 && b < 16 && c < 16 && d < 16 && r < 32 && r' < 32
    requires a != b && a != c && a != d && b != c && b != d && c != d
    modifies s
    ensures s[..] == Put(old(s[..]), a, b, c, d, Half(Pick(old(s[..]), a, b, c, d), m, r, r'))
  {
    hide Add, Xor, Rotate;
    s[a] := Add(Add(s[a], s[b]), m);
    s[d] := Rotate(Xor(s[d], s[a]), r);
    s[c] := Add(s[c], s[d]);
    s[b] := Rotate(Xor(s[b], s[c]), r');
  }

  method MixJava(s: array<Word>, a: nat, b: nat, c: nat, d: nat, mx: Word, my: Word)
    requires s.Length == 16 && a < 16 && b < 16 && c < 16 && d < 16
    requires a != b && a != c && a != d && b != c && b != d && c != d
    modifies s
    ensures s[..] == G(old(s[..]), a, b, c, d, mx, my)
  {
    hide Half;
    HalfJava(s, a, b, c, d, mx, 16, 12);
    PutTwice(old(s[..]), a, b, c, d, Half(Pick(old(s[..]), a, b, c, d), mx, 16, 12));
    HalfJava(s, a, b, c, d, my, 8, 7);
  }

  method RoundJava(s: array<Word>, m: Words)
    requires s.Length == 16
    modifies s
    ensures s[..] == Round(old(s[..]), m)
  {
    hide G;
    MixJava(s, 0, 4, 8, 12, m[0], m[1]);
    MixJava(s, 1, 5, 9, 13, m[2], m[3]);
    MixJava(s, 2, 6, 10, 14, m[4], m[5]);
    MixJava(s, 3, 7, 11, 15, m[6], m[7]);
    MixJava(s, 0, 5, 10, 15, m[8], m[9]);
    MixJava(s, 1, 6, 11, 12, m[10], m[11]);
    MixJava(s, 2, 7, 8, 13, m[12], m[13]);
    MixJava(s, 3, 4, 9, 14, m[14], m[15]);
  }

  method CompressJava(cv: seq<Word>, block: Words, low: Word, high: Word, blockLen: Word, flags: Word)
    returns (s: array<Word>)
    requires |cv| == 8
    ensures fresh(s) && s[..] == Compressed(cv, block, low, high, blockLen, flags)
  {
    hide Round, Folded, Rounds, Start;
    s := new Word[16](i requires 0 <= i < 16 => Start(cv, low, high, blockLen, flags)[i]);
    var m := block;
    assert s[..] == Start(cv, low, high, blockLen, flags);
    StartRounds(s[..], block);
    for round := 0 to 7
      invariant m == Permuted(block, round)
      invariant s[..] == Rounds(Start(cv, low, high, blockLen, flags), block, round)
    {
      NextRound(Start(cv, low, high, blockLen, flags), block, round);
      RoundJava(s, m);
      m := Permute(m);
    }
    Fold(s, cv);
  }

  method Fold(s: array<Word>, cv: seq<Word>)
    requires s.Length == 16 && |cv| == 8
    modifies s
    ensures s[..] == Folded(old(s[..]), cv)
  {
    hide Xor;
    ghost var mixed, folded := s[..], Folded(s[..], cv);
    for i := 0 to 8
      invariant forall k :: 0 <= k < 8 ==> s[k] == if k < i then folded[k] else mixed[k]
      invariant forall k :: 8 <= k < 16 ==> s[k] == if k < i + 8 then folded[k] else mixed[k]
    {
      assert s[i] == mixed[i] && s[i + 8] == mixed[i + 8];
      assert folded[i] == Xor(mixed[i], mixed[i + 8]) && folded[i + 8] == Xor(mixed[i + 8], cv[i]);
      s[i] := Xor(s[i], s[i + 8]);
      s[i + 8] := Xor(s[i + 8], cv[i]);
    }
  }

  lemma {:induction false} StartRounds(s: Words, m: Words)
    ensures Rounds(s, m, 0) == s
  {
  }

  lemma {:induction false} NextRound(s: Words, m: Words, n: nat)
    ensures Rounds(s, m, n + 1) == Round(Rounds(s, m, n), Permuted(m, n))
  {
  }
}
