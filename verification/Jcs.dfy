// The canonical JSON encoder (jcs.rs) as a function: entries sorted by key,
// strings escaped one character at a time.
module Jcs {
  import opened Sequences
  import opened Text

  type I64 = n: int | -0x8000_0000_0000_0000 <= n < 0x8000_0000_0000_0000

  datatype Value =
    | Null
    | Bool(b: bool)
    | Integer(n: I64)
    | Str(s: string)
    | Array(items: seq<Value>)
    | Object(entries: seq<Entry>)

  datatype Entry = Entry(key: string, value: Value)

  function Size(v: Value): (n: nat)
    ensures n > 0
  {
    match v
    case Array(items) => 1 + ItemsSize(items)
    case Object(entries) => 1 + EntriesSize(entries)
    case _ => 1
  }

  function ItemsSize(items: seq<Value>): nat {
    if items == [] then 0 else Size(items[0]) + ItemsSize(items[1..])
  }

  function EntriesSize(entries: seq<Entry>): nat {
    if entries == [] then 0 else Size(entries[0].value) + EntriesSize(entries[1..])
  }

  // ---------- keys in order ----------

  predicate KeyLeq(a: string, b: string) {
    a == "" || (b != "" && (a[0] < b[0] || (a[0] == b[0] && KeyLeq(a[1..], b[1..]))))
  }

  /** Unicode code point order: a beginning comes first, and otherwise the first difference decides. */
  ghost predicate CodePointOrder(a: string, b: string) {
    a <= b || exists i: nat :: DiffersAt(a, b, i) && a[i] < b[i]
  }

  predicate DiffersAt(a: string, b: string, i: nat) {
    i < |a| && i < |b| && a[..i] == b[..i] && a[i] != b[i]
  }

  lemma {:induction false} KeyLeqExactly(a: string, b: string)
    ensures KeyLeq(a, b) <==> CodePointOrder(a, b)
  {
    if a != "" && b != "" {
      if a[0] == b[0] {
        KeyLeqExactly(a[1..], b[1..]);
        OrderBehind(a, b);
      } else {
        assert DiffersAt(a, b, 0);
        assert forall i: nat :: DiffersAt(a, b, i) ==> i == 0 || a[..i][0] == b[..i][0];
      }
    }
  }

  lemma {:induction false} OrderBehind(a: string, b: string)
    requires a != "" && b != "" && a[0] == b[0]
    ensures CodePointOrder(a, b) <==> CodePointOrder(a[1..], b[1..])
  {
    assert a == [a[0]] + a[1..] && b == [b[0]] + b[1..];
    forall i: nat
      ensures DiffersAt(a, b, i + 1) <==> DiffersAt(a[1..], b[1..], i)
    {
      if i < |a[1..]| && i < |b[1..]| {
        assert a[..i + 1] == [a[0]] + a[1..][..i] && b[..i + 1] == [b[0]] + b[1..][..i];
        assert a[..i + 1][1..] == a[1..][..i] && b[..i + 1][1..] == b[1..][..i];
      }
    }
    if i: nat :| DiffersAt(a, b, i) && a[i] < b[i] {
      assert DiffersAt(a[1..], b[1..], i - 1) <==> DiffersAt(a, b, i - 1 + 1);
    }
    if i: nat :| DiffersAt(a[1..], b[1..], i) && a[1..][i] < b[1..][i] {
      assert DiffersAt(a, b, i + 1);
    }
  }

  lemma {:induction false} KeyTotal(a: string, b: string)
    ensures KeyLeq(a, b) || KeyLeq(b, a)
    ensures KeyLeq(a, b) && KeyLeq(b, a) ==> a == b
  {
    if a != "" && b != "" && a[0] == b[0] {
      KeyTotal(a[1..], b[1..]);
      assert a == [a[0]] + a[1..] && b == [b[0]] + b[1..];
    }
  }

  lemma {:induction false} KeyTransitive(a: string, b: string, c: string)
    requires KeyLeq(a, b) && KeyLeq(b, c)
    ensures KeyLeq(a, c)
  {
    if a != "" && a[0] == b[0] == c[0] {
      KeyTransitive(a[1..], b[1..], c[1..]);
    }
  }

  // ---------- the stable sort ----------

  function Insert(e: Entry, es: seq<Entry>): (r: seq<Entry>)
    ensures EntriesSize(r) == Size(e.value) + EntriesSize(es)
  {
    if es == [] || KeyLeq(e.key, es[0].key) then
      assert ([e] + es)[1..] == es;
      [e] + es
    else
      var rest := Insert(e, es[1..]);
      assert ([es[0]] + rest)[1..] == rest;
      [es[0]] + rest
  }

  /** Sorted by key, entries with equal keys kept in their order. */
  function StableSort(es: seq<Entry>): (r: seq<Entry>)
    ensures EntriesSize(r) == EntriesSize(es)
  {
    if es == [] then [] else Insert(es[0], StableSort(es[1..]))
  }

  ghost predicate SortedByKey(es: seq<Entry>) {
    forall i, j :: 0 <= i < j < |es| ==> KeyLeq(es[i].key, es[j].key)
  }

  ghost predicate InCodePointOrder(es: seq<Entry>) {
    forall i, j :: 0 <= i < j < |es| ==> CodePointOrder(es[i].key, es[j].key)
  }

  lemma {:induction false} SortedExactly(es: seq<Entry>)
    ensures SortedByKey(es) <==> InCodePointOrder(es)
  {
    hide KeyLeq, CodePointOrder;
    forall i, j | 0 <= i < j < |es|
      ensures KeyLeq(es[i].key, es[j].key) <==> CodePointOrder(es[i].key, es[j].key)
    {
      KeyLeqExactly(es[i].key, es[j].key);
    }
  }

  /** The entries with a key, in their order. */
  ghost function WithKey(es: seq<Entry>, key: string): (r: seq<Entry>)
    ensures forall e :: e in r ==> e.key == key && e in es
  {
    if es == [] then []
    else if es[0].key == key then [es[0]] + WithKey(es[1..], key)
    else WithKey(es[1..], key)
  }

  lemma {:induction false} InsertSorted(e: Entry, es: seq<Entry>)
    requires SortedByKey(es)
    ensures SortedByKey(Insert(e, es))
    ensures forall f :: f in Insert(e, es) <==> f == e || f in es
  {
    if es == [] || KeyLeq(e.key, es[0].key) {
      forall j | 0 <= j < |es|
        ensures KeyLeq(e.key, es[j].key)
      {
        if j > 0 {
          KeyTransitive(e.key, es[0].key, es[j].key);
        }
      }
    } else {
      KeyTotal(e.key, es[0].key);
      var rest := Insert(e, es[1..]);
      InsertSorted(e, es[1..]);
      assert forall f :: f in es <==> f == es[0] || f in es[1..];
      forall f | f in rest
        ensures KeyLeq(es[0].key, f.key)
      {
        if f != e {
          var j :| 0 <= j < |es[1..]| && es[1..][j] == f;
          assert es[j + 1] == f;
        }
      }
      assert Insert(e, es)[1..] == rest;
      assert forall f :: f in Insert(e, es) <==> f == es[0] || f in rest;
    }
  }

  lemma {:induction false} InsertStable(e: Entry, es: seq<Entry>, key: string)
    ensures WithKey(Insert(e, es), key) == WithKey([e] + es, key)
  {
    assert ([e] + es)[1..] == es;
    if es != [] && !KeyLeq(e.key, es[0].key) {
      InsertStable(e, es[1..], key);
      KeyTotal(e.key, es[0].key);
      assert Insert(e, es)[1..] == Insert(e, es[1..]);
      assert ([e] + es[1..])[1..] == es[1..];
    }
  }

  // What the sort is: keys in code point order, and for every key the same entries in the same order.
  lemma {:induction false} SortIsStable(es: seq<Entry>)
    ensures SortedByKey(StableSort(es)) && InCodePointOrder(StableSort(es))
    ensures forall e :: e in StableSort(es) <==> e in es
    ensures forall key :: WithKey(StableSort(es), key) == WithKey(es, key)
  {
    if es != [] {
      SortIsStable(es[1..]);
      InsertSorted(es[0], StableSort(es[1..]));
      SortedExactly(StableSort(es));
      assert es == [es[0]] + es[1..];
      forall key
        ensures WithKey(StableSort(es), key) == WithKey(es, key)
      {
        InsertStable(es[0], StableSort(es[1..]), key);
        assert ([es[0]] + StableSort(es[1..]))[1..] == StableSort(es[1..]);
      }
    }
  }

  lemma {:induction false} WithKeyFirst(es: seq<Entry>)
    requires es != []
    ensures WithKey(es, es[0].key) != [] && WithKey(es, es[0].key)[0] == es[0]
  {
  }

  lemma {:induction false} WithKeyIn(es: seq<Entry>, e: Entry)
    requires e in es
    ensures e in WithKey(es, e.key)
  {
    if es[0] != e {
      WithKeyIn(es[1..], e);
    }
  }

  // There is only one such sort.
  lemma {:induction false} SortIsUnique(xs: seq<Entry>, ys: seq<Entry>)
    requires InCodePointOrder(xs) && InCodePointOrder(ys)
    requires forall key :: WithKey(xs, key) == WithKey(ys, key)
    ensures xs == ys
  {
    SortedExactly(xs);
    SortedExactly(ys);
    if xs != [] {
      WithKeyFirst(xs);
    }
    if ys != [] {
      WithKeyFirst(ys);
    }
    assert xs == [] <==> ys == [];
    if xs != [] {
      SameFirstKey(xs, ys);
      SameFirstKey(ys, xs);
      KeyTotal(xs[0].key, ys[0].key);
      assert xs[0] == WithKey(xs, xs[0].key)[0] == WithKey(ys, ys[0].key)[0] == ys[0];
      forall key
        ensures WithKey(xs[1..], key) == WithKey(ys[1..], key)
      {
        assert WithKey(xs, key) == WithKey(ys, key);
        if key == xs[0].key {
          assert WithKey(xs[1..], key) == WithKey(xs, key)[1..] == WithKey(ys, key)[1..] == WithKey(ys[1..], key);
        }
      }
      SortIsUnique(xs[1..], ys[1..]);
      assert xs == [xs[0]] + xs[1..] && ys == [ys[0]] + ys[1..];
    }
  }

  lemma {:induction false} SameFirstKey(xs: seq<Entry>, ys: seq<Entry>)
    requires xs != [] && ys != [] && SortedByKey(ys)
    requires WithKey(xs, xs[0].key) == WithKey(ys, xs[0].key)
    ensures KeyLeq(ys[0].key, xs[0].key)
  {
    WithKeyFirst(xs);
    assert xs[0] in WithKey(ys, xs[0].key);
    var i :| 0 <= i < |ys| && ys[i] == xs[0];
    KeyTotal(ys[0].key, ys[0].key);
  }

  // Entries with different keys may be inserted in any order.
  lemma {:induction false} InsertionOrder(xs: seq<Entry>, ys: seq<Entry>)
    requires multiset(xs) == multiset(ys)
    requires forall i, j :: 0 <= i < j < |xs| ==> xs[i].key != xs[j].key
    ensures StableSort(xs) == StableSort(ys)
  {
    forall key
      ensures WithKey(xs, key) == WithKey(ys, key)
    {
      SoleEntry(xs, ys, key);
    }
    SortIsStable(xs);
    SortIsStable(ys);
    SortIsUnique(StableSort(xs), StableSort(ys));
  }

  lemma {:induction false} SoleEntry(xs: seq<Entry>, ys: seq<Entry>, key: string)
    requires multiset(xs) == multiset(ys)
    requires forall i, j :: 0 <= i < j < |xs| ==> xs[i].key != xs[j].key
    ensures WithKey(xs, key) == WithKey(ys, key)
  {
    WithKeyCounts(xs, key);
    WithKeyCounts(ys, key);
    AtMostOne(xs, key);
    SameShort(WithKey(xs, key), WithKey(ys, key));
  }

  lemma {:induction false} SameShort(a: seq<Entry>, b: seq<Entry>)
    requires |a| <= 1 && forall e :: multiset(a)[e] == multiset(b)[e]
    ensures a == b
  {
    assert multiset(a) == multiset(b);
    assert |a| == |multiset(a)| == |multiset(b)| == |b|;
    if |a| == 1 {
      assert a == [a[0]] && b == [b[0]];
      assert a[0] in multiset(b);
    }
  }

  lemma {:induction false} WithKeyCounts(es: seq<Entry>, key: string)
    ensures forall e :: multiset(WithKey(es, key))[e] == if e.key == key then multiset(es)[e] else 0
  {
    if es != [] {
      WithKeyCounts(es[1..], key);
      assert es == [es[0]] + es[1..];
    }
  }

  lemma {:induction false} AtMostOne(es: seq<Entry>, key: string)
    requires forall i, j :: 0 <= i < j < |es| ==> es[i].key != es[j].key
    ensures |WithKey(es, key)| <= 1
  {
    if es != [] {
      AtMostOne(es[1..], key);
      if es[0].key == key {
        NoneWithKey(es[1..], key);
      }
    }
  }

  lemma {:induction false} NoneWithKey(es: seq<Entry>, key: string)
    requires forall i :: 0 <= i < |es| ==> es[i].key != key
    ensures WithKey(es, key) == []
  {
    if es != [] {
      NoneWithKey(es[1..], key);
    }
  }

  // ---------- canonical values ----------

  /** Every object's entries sorted, all the way down. */
  function Canonical(v: Value): (c: Value)
    decreases Size(v), 0
  {
    match v
    case Array(items) => Array(CanonicalItems(items))
    case Object(entries) => Object(StableSort(CanonicalEntries(entries)))
    case _ => v
  }

  function CanonicalItems(items: seq<Value>): (cs: seq<Value>)
    ensures |cs| == |items|
    decreases ItemsSize(items), 1
  {
    if items == [] then [] else [Canonical(items[0])] + CanonicalItems(items[1..])
  }

  function CanonicalEntries(entries: seq<Entry>): (cs: seq<Entry>)
    ensures |cs| == |entries|
    decreases EntriesSize(entries), 1
  {
    if entries == [] then []
    else [Entry(entries[0].key, Canonical(entries[0].value))] + CanonicalEntries(entries[1..])
  }

  // Sorting looks at keys only, so it may be done before the values are made canonical.
  lemma {:induction false} CanonicalInsert(e: Entry, es: seq<Entry>)
    ensures CanonicalEntries(Insert(e, es)) == Insert(Entry(e.key, Canonical(e.value)), CanonicalEntries(es))
  {
    if es == [] || KeyLeq(e.key, es[0].key) {
      assert ([e] + es)[1..] == es;
    } else {
      CanonicalInsert(e, es[1..]);
      assert Insert(e, es)[1..] == Insert(e, es[1..]);
      assert CanonicalEntries(es)[1..] == CanonicalEntries(es[1..]);
    }
  }

  lemma {:induction false} CanonicalSort(es: seq<Entry>)
    ensures CanonicalEntries(StableSort(es)) == StableSort(CanonicalEntries(es))
  {
    if es != [] {
      CanonicalSort(es[1..]);
      CanonicalInsert(es[0], StableSort(es[1..]));
      assert CanonicalEntries(es)[1..] == CanonicalEntries(es[1..]);
    }
  }

  // ---------- the text of a value, entries as they stand ----------

  function Hex(n: nat): char
    requires n < 16
  {
    "0123456789abcdef"[n]
  }

  function Escape(c: char): (s: string)
    ensures s != ""
  {
    if c == '"' then "\\\""
    else if c == '\\' then "\\\\"
    else if c as int < 0x20 then "\\u00" + [Hex(c as int / 16), Hex(c as int % 16)]
    else [c]
  }

  function Body(s: string): string {
    if s == "" then "\"" else Escape(s[0]) + Body(s[1..])
  }

  function Quoted(s: string): string {
    "\"" + Body(s)
  }

  function Numeral(n: int): (s: string)
    ensures s != ""
  {
    if n < 0 then "-" + Decimal(-n) else Decimal(n)
  }

  function Write(v: Value): (s: string)
    decreases Size(v), 0
  {
    match v
    case Null => "null"
    case Bool(b) => if b then "true" else "false"
    case Integer(n) => Numeral(n)
    case Str(s) => Quoted(s)
    case Array(items) => "[" + Items(items, false)
    case Object(entries) => "{" + Entries(entries, false)
  }

  /** The rest of an array, after a comma if something came before. */
  function Items(items: seq<Value>, comma: bool): (s: string)
    decreases ItemsSize(items), 1
  {
    if items == [] then "]"
    else (if comma then "," else "") + (Write(items[0]) + Items(items[1..], true))
  }

  function Member(e: Entry): (s: string)
    decreases Size(e.value), 1
  {
    Quoted(e.key) + (":" + Write(e.value))
  }

  function Entries(entries: seq<Entry>, comma: bool): (s: string)
    decreases EntriesSize(entries), 2
  {
    if entries == [] then "}"
    else (if comma then "," else "") + (Member(entries[0]) + Entries(entries[1..], true))
  }

  function Encode(v: Value): string {
    Write(Canonical(v))
  }

  // The order in which an object's entries were inserted is not encoded.
  lemma {:induction false} InsertionOrderIgnored(xs: seq<Entry>, ys: seq<Entry>)
    requires multiset(xs) == multiset(ys)
    requires forall i, j :: 0 <= i < j < |xs| ==> xs[i].key != xs[j].key
    ensures Encode(Object(xs)) == Encode(Object(ys))
  {
    InsertionOrder(xs, ys);
    CanonicalSort(xs);
    CanonicalSort(ys);
  }

  // Canonical values are their own canonical form.
  lemma {:induction false} CanonicalIdempotent(v: Value)
    ensures Canonical(Canonical(v)) == Canonical(v)
    decreases Size(v), 0
  {
    match v
    case Array(items) => ItemsIdempotent(items);
    case Object(entries) =>
      EntriesIdempotent(entries);
      var cs := CanonicalEntries(entries);
      CanonicalSort(cs);
      SortIsStable(cs);
      SortIsStable(StableSort(cs));
      SortIsUnique(StableSort(StableSort(cs)), StableSort(cs));
    case _ =>
  }

  // So a value and its canonical form have one encoding.
  lemma {:induction false} CanonicalEncodedAlike(v: Value)
    ensures Encode(Canonical(v)) == Encode(v)
  {
    CanonicalIdempotent(v);
  }

  lemma {:induction false} ItemsIdempotent(items: seq<Value>)
    ensures CanonicalItems(CanonicalItems(items)) == CanonicalItems(items)
    decreases ItemsSize(items), 1
  {
    if items != [] {
      CanonicalIdempotent(items[0]);
      ItemsIdempotent(items[1..]);
      assert CanonicalItems(items)[1..] == CanonicalItems(items[1..]);
    }
  }

  lemma {:induction false} EntriesIdempotent(entries: seq<Entry>)
    ensures CanonicalEntries(CanonicalEntries(entries)) == CanonicalEntries(entries)
    decreases EntriesSize(entries), 1
  {
    if entries != [] {
      CanonicalIdempotent(entries[0].value);
      EntriesIdempotent(entries[1..]);
      assert CanonicalEntries(entries)[1..] == CanonicalEntries(entries[1..]);
    }
  }
}
