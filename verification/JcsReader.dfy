// A reader of the encoder's texts, written from the form of JSON (RFC 8259) as the rules of jcs.rs narrow it: no
// whitespace, shortest integers, control characters as `\u00xx`. What the encoder writes is what it reads.
module JcsReader {
  import opened Jcs
  import opened Sequences
  import opened Text
  import opened Wrappers

  /** What was read, and the text behind it. */
  datatype Read<+T> = Read(value: T, rest: string)

  // ---------- the reader ----------

  function LeadingDigits(t: string): (s: string)
    ensures s <= t && Digits(s)
    ensures |s| < |t| ==> !('0' <= t[|s|] <= '9')
  {
    if t == "" || !('0' <= t[0] <= '9') then "" else [t[0]] + LeadingDigits(t[1..])
  }

  function ReadNatural(t: string): (r: Option<Read<int>>)
    ensures r.Some? ==> r.value.value >= 0 && |r.value.rest| < |t|
  {
    var s := LeadingDigits(t);
    if Shortest(s) then Some(Read(PlaceValue(s), t[|s|..])) else None
  }

  function ReadInteger(t: string): (r: Option<Read<int>>)
    requires t != ""
    ensures r.Some? ==> |r.value.rest| < |t|
  {
    if t[0] == '-' then
      match ReadNatural(t[1..])
      case Some(n) => if n.value > 0 then Some(Read(-n.value, n.rest)) else None
      case None => None
    else
      ReadNatural(t)
  }

  /** The value of a lower-case hexadecimal digit. */
  function HexValue(c: char): (r: Option<nat>)
    ensures r.Some? ==> r.value < 16
  {
    if '0' <= c <= '9' then Some(c as int - '0' as int)
    else if 'a' <= c <= 'f' then Some(c as int - 'a' as int + 10)
    else None
  }

  /** One character of a string: control characters as hexadecimal escapes, quotes and backslashes behind one. */
  function ReadCharacter(t: string): (r: Option<Read<char>>)
    requires t != ""
    ensures r.Some? ==> |r.value.rest| < |t|
  {
    if t[0] != '\\' then
      if t[0] as int < 0x20 then None else Some(Read(t[0], t[1..]))
    else if |t| > 1 && (t[1] == '"' || t[1] == '\\') then Some(Read(t[1], t[2..]))
    else if |t| > 5 && t[1] == 'u' && t[2] == '0' && t[3] == '0' then
      match (HexValue(t[4]), HexValue(t[5]))
      case (Some(high), Some(low)) =>
        if 16 * high + low < 0x20 then Some(Read((16 * high + low) as char, t[6..])) else None
      case _ => None
    else None
  }

  /** The characters up to the closing quote. */
  function ReadBody(t: string): (r: Option<Read<string>>)
    ensures r.Some? ==> |r.value.rest| < |t|
    decreases |t|
  {
    if t == "" then None
    else if t[0] == '"' then Some(Read("", t[1..]))
    else
      match ReadCharacter(t)
      case None => None
      case Some(c) =>
        match ReadBody(c.rest)
        case None => None
        case Some(more) => Some(Read([c.value] + more.value, more.rest))
  }

  function ReadString(t: string): (r: Option<Read<string>>)
    ensures r.Some? ==> |r.value.rest| < |t|
  {
    if t == "" || t[0] != '"' then None else ReadBody(t[1..])
  }

  function ReadValue(t: string): (r: Option<Read<Value>>)
    ensures r.Some? ==> |r.value.rest| < |t|
    decreases |t|, 0
  {
    if t == "" then None
    else if t[0] == '"' then
      match ReadString(t)
      case None => None
      case Some(s) => Some(Read(Str(s.value), s.rest))
    else if t[0] == '[' then
      match ReadItems(t[1..], false)
      case None => None
      case Some(items) => Some(Read(Array(items.value), items.rest))
    else if t[0] == '{' then
      match ReadEntries(t[1..], false)
      case None => None
      case Some(entries) => Some(Read(Object(entries.value), entries.rest))
    else if "null" <= t then Some(Read(Null, t[4..]))
    else if "true" <= t then Some(Read(Bool(true), t[4..]))
    else if "false" <= t then Some(Read(Bool(false), t[5..]))
    else
      match ReadInteger(t)
      case None => None
      case Some(n) =>
        if -0x8000_0000_0000_0000 <= n.value < 0x8000_0000_0000_0000 then Some(Read(Integer(n.value), n.rest))
        else None
  }

  /** The text behind a comma, where one must stand. */
  function PastComma(t: string, comma: bool): (r: Option<string>)
    ensures r.Some? ==> |r.value| <= |t|
  {
    if !comma then Some(t)
    else if t != "" && t[0] == ',' then Some(t[1..])
    else None
  }

  /** The items up to the closing bracket, each behind a comma if something came before. */
  function ReadItems(t: string, comma: bool): (r: Option<Read<seq<Value>>>)
    ensures r.Some? ==> |r.value.rest| < |t|
    decreases |t|, 1
  {
    if t != "" && t[0] == ']' then Some(Read([], t[1..]))
    else
      match PastComma(t, comma)
      case None => None
      case Some(t') =>
        match ReadValue(t')
        case None => None
        case Some(item) =>
          match ReadItems(item.rest, true)
          case None => None
          case Some(more) => Some(Read([item.value] + more.value, more.rest))
  }

  /** A key, a colon and a value. */
  function ReadMember(t: string): (r: Option<Read<Entry>>)
    ensures r.Some? ==> |r.value.rest| < |t|
    decreases |t|, 1
  {
    match ReadString(t)
    case None => None
    case Some(key) =>
      if key.rest == "" || key.rest[0] != ':' then None
      else
        match ReadValue(key.rest[1..])
        case None => None
        case Some(v) => Some(Read(Entry(key.value, v.value), v.rest))
  }

  function ReadEntries(t: string, comma: bool): (r: Option<Read<seq<Entry>>>)
    ensures r.Some? ==> |r.value.rest| < |t|
    decreases |t|, 2
  {
    if t != "" && t[0] == '}' then Some(Read([], t[1..]))
    else
      match PastComma(t, comma)
      case None => None
      case Some(t') =>
        match ReadMember(t')
        case None => None
        case Some(e) =>
          match ReadEntries(e.rest, true)
          case None => None
          case Some(more) => Some(Read([e.value] + more.value, more.rest))
  }

  // ---------- what was written is read back ----------

  /** What may follow a value: nothing, or one of the structural characters that end it. */
  predicate Delimited(s: string) {
    s == "" || s[0] in {',', ']', '}'}
  }

  lemma {:induction false} LeadingOf(a: string, s: string)
    requires Digits(a) && Delimited(s)
    ensures LeadingDigits(a + s) == a
  {
    if a == "" {
      assert a + s == s;
    } else {
      assert (a + s)[1..] == a[1..] + s;
      LeadingOf(a[1..], s);
      assert a == [a[0]] + a[1..];
    }
  }

  lemma {:induction false} NaturalReadsBack(n: nat, s: string)
    requires Delimited(s)
    ensures ReadNatural(Decimal(n) + s) == Some(Read(n, s))
  {
    hide Decimal;
    DecimalReads(n);
    LeadingOf(Decimal(n), s);
    assert (Decimal(n) + s)[|Decimal(n)|..] == s;
  }

  lemma {:induction false} IntegerReadsBack(n: int, s: string)
    requires Delimited(s)
    ensures ReadInteger(Numeral(n) + s) == Some(Read(n, s))
  {
    hide ReadNatural, Decimal, PlaceValue;
    if n < 0 {
      NaturalReadsBack(-n, s);
      assert (Numeral(n) + s)[1..] == Decimal(-n) + s;
    } else {
      NaturalReadsBack(n, s);
      DecimalReads(n);
      assert Digits(Decimal(n)) && (Decimal(n) + s)[0] == Decimal(n)[0];
    }
  }

  lemma {:induction false} CharacterReadsBack(c: char, s: string)
    ensures ReadCharacter(Escape(c) + s) == Some(Read(c, s))
  {
    var t := Escape(c) + s;
    assert t[|Escape(c)|..] == s;
    if c as int < 0x20 {
      HexReadsBack(c as int / 16);
      HexReadsBack(c as int % 16);
    }
  }

  lemma {:induction false} HexReadsBack(n: nat)
    requires n < 16
    ensures HexValue(Hex(n)) == Some(n)
  {
  }

  lemma {:induction false} BodyReadsBack(a: string, s: string)
    ensures ReadBody(Body(a) + s) == Some(Read(a, s))
  {
    hide ReadCharacter;
    var t := Body(a) + s;
    if a == "" {
      assert t[1..] == s;
    } else {
      CharacterReadsBack(a[0], Body(a[1..]) + s);
      ConcatAssoc(Escape(a[0]), Body(a[1..]), s);
      BodyReadsBack(a[1..], s);
      assert t[0] == Escape(a[0])[0];
      assert a == [a[0]] + a[1..];
    }
  }

  lemma {:induction false} StringReadsBack(a: string, s: string)
    ensures ReadString(Quoted(a) + s) == Some(Read(a, s))
  {
    hide ReadBody, Body;
    assert (Quoted(a) + s)[1..] == Body(a) + s;
    BodyReadsBack(a, s);
  }

  lemma {:induction false} NumeralStart(n: int)
    ensures Numeral(n)[0] == '-' || '0' <= Numeral(n)[0] <= '9'
  {
    hide Decimal;
    DecimalReads(if n < 0 then -n else n);
  }

  lemma {:induction false} Startless(w: string, t: string)
    requires t != "" && w != "" && w[0] != t[0]
    ensures !(w <= t)
  {
  }

  // Reading is the inverse of writing, whatever delimiter follows.
  lemma {:induction false} ReadsBack(v: Value, s: string)
    requires Delimited(s)
    ensures ReadValue(Write(v) + s) == Some(Read(v, s))
    decreases Size(v), 0
  {
    hide Numeral, Body, Items, Entries, ReadInteger, ReadString, ReadItems, ReadEntries, Delimited;
    var t := Write(v) + s;
    assert t[|Write(v)|..] == s;
    match v
    case Integer(n) =>
      IntegerReadsBack(n, s);
      NumeralStart(n);
      assert t[0] == Numeral(n)[0];
    case Str(a) => StringReadsBack(a, s);
    case Array(items) =>
      assert t[0] == '[' && t[1..] == Items(items, false) + s;
      ItemsReadBack(items, false, s);
    case Object(entries) =>
      assert t[0] == '{' && t[1..] == Entries(entries, false) + s;
      EntriesReadBack(entries, false, s);
    case Null => assert Write(v) <= t;
    case Bool(b) =>
      assert Write(v) <= t;
      Startless("null", t);
      if !b {
        Startless("true", t);
      }
  }

  lemma {:induction false} ItemsReadBack(items: seq<Value>, comma: bool, s: string)
    ensures ReadItems(Items(items, comma) + s, comma) == Some(Read(items, s))
    decreases ItemsSize(items), 1
  {
    hide Write, ReadValue;
    var t := Items(items, comma) + s;
    if items == [] {
      assert t[1..] == s;
    } else {
      var more := Items(items[1..], true);
      var t' := Write(items[0]) + (more + s);
      ConcatAssoc(Write(items[0]), more, s);
      assert t == (if comma then "," else "") + t';
      PastWritten(t', comma);
      ReadsBack(items[0], more + s);
      ItemsReadBack(items[1..], true, s);
      NotClosing(items[0]);
      assert items == [items[0]] + items[1..];
    }
  }

  lemma {:induction false} PastWritten(t: string, comma: bool)
    ensures PastComma((if comma then "," else "") + t, comma) == Some(t)
  {
    assert ("," + t)[1..] == t && "" + t == t;
  }

  lemma {:induction false} NotClosing(v: Value)
    ensures Write(v) != "" && Write(v)[0] != ']'
  {
    hide Numeral, Body, Items, Entries;
    match v
    case Integer(n) => NumeralStart(n);
    case _ =>
  }

  lemma {:induction false} MemberReadsBack(e: Entry, s: string)
    requires Delimited(s)
    ensures ReadMember(Member(e) + s) == Some(Read(e, s))
    decreases Size(e.value), 1
  {
    hide Write, Quoted, ReadValue, ReadString, Delimited;
    var more := ":" + Write(e.value);
    ConcatAssoc(Quoted(e.key), more, s);
    StringReadsBack(e.key, more + s);
    assert (more + s)[1..] == Write(e.value) + s;
    ReadsBack(e.value, s);
  }

  lemma {:induction false} EntriesReadBack(entries: seq<Entry>, comma: bool, s: string)
    ensures ReadEntries(Entries(entries, comma) + s, comma) == Some(Read(entries, s))
    decreases EntriesSize(entries), 2
  {
    hide Write, Body, ReadMember;
    var t := Entries(entries, comma) + s;
    if entries == [] {
      assert t[1..] == s;
    } else {
      var more := Entries(entries[1..], true);
      var t' := Member(entries[0]) + (more + s);
      ConcatAssoc(Member(entries[0]), more, s);
      assert t == (if comma then "," else "") + t';
      PastWritten(t', comma);
      MemberReadsBack(entries[0], more + s);
      EntriesReadBack(entries[1..], true, s);
      assert entries == [entries[0]] + entries[1..];
    }
  }

  // ---------- nothing else is read ----------

  lemma {:induction false} NaturalIsText(t: string)
    requires ReadNatural(t).Some?
    ensures var r := ReadNatural(t).value; t == Decimal(r.value) + r.rest
  {
    var s := LeadingDigits(t);
    DecimalExactly(PlaceValue(s), s);
    assert t == s + t[|s|..];
  }

  lemma {:induction false} IntegerIsText(t: string)
    requires t != "" && ReadInteger(t).Some?
    ensures var r := ReadInteger(t).value; t == Numeral(r.value) + r.rest
  {
    hide ReadNatural, Decimal;
    if t[0] == '-' {
      NaturalIsText(t[1..]);
      assert t == "-" + t[1..];
    } else {
      NaturalIsText(t);
    }
  }

  lemma {:induction false} CharacterIsText(t: string)
    requires t != "" && t[0] != '"' && ReadCharacter(t).Some?
    ensures var r := ReadCharacter(t).value; t == Escape(r.value) + r.rest
  {
    if t[0] != '\\' {
      assert t == [t[0]] + t[1..];
    } else if t[1] != 'u' {
      assert t == t[..2] + t[2..] && t[..2] == [t[0], t[1]];
    } else {
      ControlIsText(t);
    }
  }

  lemma {:induction false} ControlIsText(t: string)
    requires |t| > 1 && t[0] == '\\' && t[1] == 'u' && ReadCharacter(t).Some?
    ensures var r := ReadCharacter(t).value; t == Escape(r.value) + r.rest
  {
    hide Hex, HexValue;
    var high, low := HexValue(t[4]).value, HexValue(t[5]).value;
    var n := 16 * high + low;
    HexIsText(t[4]);
    HexIsText(t[5]);
    assert n / 16 == high && n % 16 == low;
    var s := "\\u00" + [t[4], t[5]];
    assert Escape(n as char) == s;
    assert t == s + t[6..];
  }

  lemma {:induction false} HexIsText(c: char)
    requires HexValue(c).Some?
    ensures Hex(HexValue(c).value) == c
  {
  }

  lemma {:induction false} BodyIsText(t: string)
    requires ReadBody(t).Some?
    ensures var r := ReadBody(t).value; t == Body(r.value) + r.rest
    decreases |t|
  {
    hide ReadCharacter, Escape;
    var r := ReadBody(t).value;
    if t[0] == '"' {
      assert t == "\"" + t[1..];
    } else {
      var c := ReadCharacter(t).value;
      CharacterIsText(t);
      BodyIsText(c.rest);
      assert r.value[0] == c.value && r.value[1..] == ReadBody(c.rest).value.value;
      ConcatAssoc(Escape(c.value), Body(r.value[1..]), r.rest);
    }
  }

  lemma {:induction false} StringIsText(t: string)
    requires ReadString(t).Some?
    ensures var r := ReadString(t).value; t == Quoted(r.value) + r.rest
  {
    hide ReadBody, Body;
    BodyIsText(t[1..]);
    var r := ReadString(t).value;
    ConcatAssoc("\"", Body(r.value), r.rest);
    assert t == "\"" + t[1..];
  }

  lemma {:induction false} Starts(w: string, t: string)
    requires w <= t
    ensures t == w + t[|w|..]
  {
  }

  // And nothing is read that was not written.
  lemma {:induction false} ReadIsText(t: string)
    requires ReadValue(t).Some?
    ensures var r := ReadValue(t).value; t == Write(r.value) + r.rest
    decreases |t|, 0
  {
    hide Numeral, Quoted, Items, Entries, ReadInteger, ReadString, ReadItems, ReadEntries;
    var r := ReadValue(t).value;
    assert t == [t[0]] + t[1..];
    if t[0] == '"' {
      StringIsText(t);
    } else if t[0] == '[' {
      ItemsAreText(t[1..], false);
      ConcatAssoc("[", Items(r.value.items, false), r.rest);
    } else if t[0] == '{' {
      EntriesAreText(t[1..], false);
      ConcatAssoc("{", Entries(r.value.entries, false), r.rest);
    } else if !("null" <= t || "true" <= t || "false" <= t) {
      IntegerIsText(t);
    }
  }

  lemma {:induction false} ItemsAreText(t: string, comma: bool)
    requires ReadItems(t, comma).Some?
    ensures var r := ReadItems(t, comma).value; t == Items(r.value, comma) + r.rest
    decreases |t|, 1
  {
    hide Write, ReadValue;
    var r := ReadItems(t, comma).value;
    if t != "" && t[0] == ']' {
      assert t == "]" + t[1..];
    } else {
      var t' := PastComma(t, comma).value;
      var item := ReadValue(t').value;
      ReadIsText(t');
      ItemsAreText(item.rest, true);
      assert r.value[0] == item.value && r.value[1..] == ReadItems(item.rest, true).value.value;
      ConcatAssoc(Write(item.value), Items(r.value[1..], true), r.rest);
      PastIsText(t, comma);
      ConcatAssoc(if comma then "," else "", Write(item.value) + Items(r.value[1..], true), r.rest);
    }
  }

  lemma {:induction false} PastIsText(t: string, comma: bool)
    requires PastComma(t, comma).Some?
    ensures t == (if comma then "," else "") + PastComma(t, comma).value
  {
  }

  lemma {:induction false} MemberIsText(t: string)
    requires ReadMember(t).Some?
    ensures var r := ReadMember(t).value; t == Member(r.value) + r.rest
    decreases |t|, 1
  {
    hide Write, Quoted, ReadValue, ReadString;
    var r, key := ReadMember(t).value, ReadString(t).value;
    StringIsText(t);
    ReadIsText(key.rest[1..]);
    assert key.rest == ":" + key.rest[1..];
    ConcatAssoc(":", Write(r.value.value), r.rest);
    ConcatAssoc(Quoted(key.value), ":" + Write(r.value.value), r.rest);
  }

  lemma {:induction false} EntriesAreText(t: string, comma: bool)
    requires ReadEntries(t, comma).Some?
    ensures var r := ReadEntries(t, comma).value; t == Entries(r.value, comma) + r.rest
    decreases |t|, 2
  {
    hide Member, ReadMember;
    var r := ReadEntries(t, comma).value;
    if t != "" && t[0] == '}' {
      assert t == "}" + t[1..];
    } else {
      var t' := PastComma(t, comma).value;
      var e := ReadMember(t').value;
      MemberIsText(t');
      EntriesAreText(e.rest, true);
      assert r.value[0] == e.value && r.value[1..] == ReadEntries(e.rest, true).value.value;
      ConcatAssoc(Member(e.value), Entries(r.value[1..], true), r.rest);
      PastIsText(t, comma);
      ConcatAssoc(if comma then "," else "", Member(e.value) + Entries(r.value[1..], true), r.rest);
    }
  }

  // ---------- the text determines the value ----------

  // No text of a value is a proper beginning of another's, up to a delimiter.
  lemma {:induction false} WriteUnique(v: Value, w: Value, s: string, s': string)
    requires Delimited(s) && Delimited(s') && Write(v) + s == Write(w) + s'
    ensures v == w && s == s'
  {
    ReadsBack(v, s);
    ReadsBack(w, s');
  }

  lemma {:induction false} QuotedUnique(a: string, b: string, s: string, s': string)
    requires Quoted(a) + s == Quoted(b) + s'
    ensures a == b && s == s'
  {
    StringReadsBack(a, s);
    StringReadsBack(b, s');
  }

  lemma {:induction false} NumeralUnique(m: int, n: int, s: string, s': string)
    requires Delimited(s) && Delimited(s') && Numeral(m) + s == Numeral(n) + s'
    ensures m == n && s == s'
  {
    IntegerReadsBack(m, s);
    IntegerReadsBack(n, s');
  }

  // The text of a value is the one text that is read as that value and nothing behind it.
  lemma {:induction false} WriteExactly(v: Value, t: string)
    ensures t == Write(v) <==> ReadValue(t) == Some(Read(v, ""))
  {
    hide Write, ReadValue;
    assert Write(v) + "" == Write(v);
    ReadsBack(v, "");
    if ReadValue(t) == Some(Read(v, "")) {
      ReadIsText(t);
    }
  }

  // ---------- what is written of a value ----------

  /** Every object has its keys in code point order, all the way down. */
  ghost predicate Ordered(v: Value) {
    match v
    case Array(items) => forall i :: 0 <= i < |items| ==> Ordered(items[i])
    case Object(entries) =>
      && InCodePointOrder(entries)
      && forall i :: 0 <= i < |entries| ==> Ordered(entries[i].value)
    case _ => true
  }

  /** The entries of es in another order that keeps entries of one key in theirs, their values rearranged alike. */
  ghost predicate Rearranged(v: Value, w: Value) {
    match v
    case Array(items) =>
      && w.Array? && |w.items| == |items|
      && forall i :: 0 <= i < |items| ==> Rearranged(items[i], w.items[i])
    case Object(entries) =>
      && w.Object?
      && exists es: seq<Entry> ::
           && |es| == |entries| && SameByKey(es, w.entries)
           && (forall i :: 0 <= i < |entries| ==> es[i].key == entries[i].key)
           && (forall i :: 0 <= i < |entries| ==> Rearranged(entries[i].value, es[i].value))
    case _ => w == v
  }

  ghost predicate SameByKey(xs: seq<Entry>, ys: seq<Entry>) {
    && (forall e :: e in xs <==> e in ys)
    && forall key :: WithKey(xs, key) == WithKey(ys, key)
  }

  lemma {:induction false} CanonicalIsOrdered(v: Value)
    ensures Ordered(Canonical(v)) && Rearranged(v, Canonical(v))
  {
    match v
    case Array(items) =>
      forall i | 0 <= i < |items|
        ensures CanonicalItems(items)[i] == Canonical(items[i])
        ensures Ordered(Canonical(items[i])) && Rearranged(items[i], Canonical(items[i]))
      {
        CanonicalItemAt(items, i);
        CanonicalIsOrdered(items[i]);
      }
    case Object(entries) =>
      var es := CanonicalEntries(entries);
      forall i | 0 <= i < |entries|
        ensures es[i] == Entry(entries[i].key, Canonical(entries[i].value))
        ensures Ordered(es[i].value) && Rearranged(entries[i].value, es[i].value)
      {
        CanonicalEntryAt(entries, i);
        CanonicalIsOrdered(entries[i].value);
      }
      SortIsStable(es);
      var sorted := StableSort(es);
      assert SameByKey(es, sorted);
      forall i | 0 <= i < |sorted|
        ensures Ordered(sorted[i].value)
      {
        assert sorted[i] in es;
      }
    case _ =>
  }

  lemma {:induction false} OrderedIsCanonical(v: Value, w: Value)
    requires Ordered(w) && Rearranged(v, w)
    ensures w == Canonical(v)
  {
    match v
    case Array(items) =>
      forall i | 0 <= i < |items|
        ensures w.items[i] == CanonicalItems(items)[i]
      {
        CanonicalItemAt(items, i);
        OrderedIsCanonical(items[i], w.items[i]);
      }
      assert w.items == CanonicalItems(items);
    case Object(entries) =>
      var es: seq<Entry> :| |es| == |entries| && SameByKey(es, w.entries)
        && (forall i :: 0 <= i < |entries| ==> es[i].key == entries[i].key)
        && (forall i :: 0 <= i < |entries| ==> Rearranged(entries[i].value, es[i].value));
      forall i | 0 <= i < |entries|
        ensures es[i] == CanonicalEntries(entries)[i]
      {
        CanonicalEntryAt(entries, i);
        assert es[i] in w.entries;
        OrderedIsCanonical(entries[i].value, es[i].value);
      }
      assert es == CanonicalEntries(entries);
      SortIsStable(es);
      SortIsUnique(w.entries, StableSort(es));
    case _ =>
  }

  lemma {:induction false} CanonicalItemAt(items: seq<Value>, i: nat)
    requires i < |items|
    ensures CanonicalItems(items)[i] == Canonical(items[i])
  {
    if i > 0 {
      CanonicalItemAt(items[1..], i - 1);
    }
  }

  lemma {:induction false} CanonicalEntryAt(entries: seq<Entry>, i: nat)
    requires i < |entries|
    ensures CanonicalEntries(entries)[i] == Entry(entries[i].key, Canonical(entries[i].value))
  {
    if i > 0 {
      CanonicalEntryAt(entries[1..], i - 1);
    }
  }

  /** The text is read as an arrangement of the value with every object's keys in order. */
  ghost predicate Encodes(t: string, v: Value) {
    exists w :: ReadValue(t) == Some(Read(w, "")) && Ordered(w) && Rearranged(v, w)
  }

  // The encoding of a value is the one text that encodes it.
  lemma {:induction false} EncodeExactly(v: Value, t: string)
    ensures t == Encode(v) <==> Encodes(t, v)
  {
    hide Ordered, Rearranged, ReadValue, Write;
    CanonicalIsOrdered(v);
    WriteExactly(Canonical(v), t);
    if w :| ReadValue(t) == Some(Read(w, "")) && Ordered(w) && Rearranged(v, w) {
      OrderedIsCanonical(v, w);
    }
  }

  // Equal encodings are exactly equal values up to a stable sort of every object.
  lemma {:induction false} EncodeUnique(v: Value, w: Value)
    ensures Encode(v) == Encode(w) <==> Canonical(v) == Canonical(w)
  {
    if Encode(v) == Encode(w) {
      assert Encode(v) + "" == Encode(v) && Encode(w) + "" == Encode(w);
      WriteUnique(Canonical(v), Canonical(w), "", "");
    }
  }
}
