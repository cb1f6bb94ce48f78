// The canonical JSON encoder as it runs (jcs.rs): one growing output, entries sorted as they are written.
module JcsEncoder {
  import opened Jcs
  import opened JcsReader
  import opened Sequences

  class Output {
    var text: string

    constructor ()
      ensures text == ""
    {
      text := "";
    }

    method Push(s: string)
      modifies this
      ensures text == old(text) + s
    {
      text := text + s;
    }
  }

  method EncodeString(s: string, out: Output)
    modifies out
    ensures out.text == old(out.text) + Quoted(s)
  {
    out.Push("\"");
    for i := 0 to |s|
      invariant out.text + Body(s[i..]) == old(out.text) + Quoted(s)
    {
      assert s[i..][0] == s[i] && s[i..][1..] == s[i + 1..];
      ConcatAssoc(out.text, Escape(s[i]), Body(s[i + 1..]));
      if s[i] == '"' {
        out.Push("\\\"");
      } else if s[i] == '\\' {
        out.Push("\\\\");
      } else if s[i] as int < 0x20 {
        out.Push("\\u00" + [Hex(s[i] as int / 16), Hex(s[i] as int % 16)]);
      } else {
        out.Push([s[i]]);
      }
    }
    out.Push("\"");
  }

  method EncodeValue(v: Value, out: Output)
    modifies out
    ensures out.text == old(out.text) + Encode(v)
    decreases Size(v), 1
  {
    match v
    case Null => out.Push("null");
    case Bool(b) => out.Push(if b then "true" else "false");
    case Integer(n) => out.Push(Numeral(n));
    case Str(s) => EncodeString(s, out);
    case Array(items) => EncodeArray(items, out);
    case Object(entries) => EncodeObject(entries, out);
  }

  method EncodeArray(items: seq<Value>, out: Output)
    modifies out
    ensures out.text == old(out.text) + Encode(Array(items))
    decreases 1 + ItemsSize(items), 0
  {
    hide Items, Write;
    out.Push("[");
    OpenArray(old(out.text), items);
    for i := 0 to |items|
      invariant out.text + Items(CanonicalItems(items[i..]), i > 0) == old(out.text) + Encode(Array(items))
    {
      NextItem(items, i, out.text);
      ItemPartSize(items, i);
      if i > 0 {
        out.Push(",");
      }
      EncodeValue(items[i], out);
    }
    out.Push("]");
    CloseArray(items);
  }

  method EncodeObject(entries: seq<Entry>, out: Output)
    modifies out
    ensures out.text == old(out.text) + Encode(Object(entries))
    decreases 1 + EntriesSize(entries), 0
  {
    hide Entries, Write, StableSort, Encode, Quoted, CanonicalEntries;
    var sorted := StableSort(entries);
    out.Push("{");
    OpenObject(old(out.text), entries);
    for i := 0 to |sorted|
      invariant out.text + Entries(CanonicalEntries(sorted[i..]), i > 0) == old(out.text) + Encode(Object(entries))
    {
      NextEntry(sorted, i, out.text);
      EntryPartSize(sorted, i);
      if i > 0 {
        out.Push(",");
      }
      EncodeString(sorted[i].key, out);
      out.Push(":");
      EncodeValue(sorted[i].value, out);
    }
    out.Push("}");
    CloseObject(sorted);
  }

  method EncodeJcs(v: Value) returns (s: string)
    ensures s == Encode(v)
    ensures forall t :: t == s <==> Encodes(t, v)
    ensures forall w :: Encode(w) == s <==> Canonical(w) == Canonical(v)
  {
    var out := new Output();
    EncodeValue(v, out);
    s := out.text;
    forall t
      ensures t == s <==> Encodes(t, v)
    {
      EncodeExactly(v, t);
    }
    forall w
      ensures Encode(w) == s <==> Canonical(w) == Canonical(v)
    {
      EncodeUnique(w, v);
    }
  }

  lemma {:induction false} OpenArray(text: string, items: seq<Value>)
    ensures (text + "[") + Items(CanonicalItems(items[0..]), false) == text + Encode(Array(items))
  {
    assert items[0..] == items;
    ConcatAssoc(text, "[", Items(CanonicalItems(items), false));
  }

  lemma {:induction false} CloseArray(items: seq<Value>)
    ensures Items(CanonicalItems(items[|items|..]), |items| > 0) == "]"
  {
  }

  lemma {:induction false} NextItem(items: seq<Value>, i: nat, text: string)
    requires i < |items|
    ensures text + Items(CanonicalItems(items[i..]), i > 0) ==
            ((text + (if i > 0 then "," else "")) + Encode(items[i])) + Items(CanonicalItems(items[i + 1..]), true)
  {
    assert items[i..][0] == items[i] && items[i..][1..] == items[i + 1..];
    var cs := CanonicalItems(items[i..]);
    var more := Items(CanonicalItems(items[i + 1..]), true);
    assert cs[0] == Canonical(items[i]) && cs[1..] == CanonicalItems(items[i + 1..]);
    var comma := if i > 0 then "," else "";
    ConcatAssoc(text, comma, Encode(items[i]) + more);
    ConcatAssoc(text + comma, Encode(items[i]), more);
  }

  lemma {:induction false} ItemPartSize(items: seq<Value>, i: nat)
    requires i < |items|
    ensures Size(items[i]) <= ItemsSize(items)
  {
    if i > 0 {
      ItemPartSize(items[1..], i - 1);
    }
  }

  lemma {:induction false} OpenObject(text: string, entries: seq<Entry>)
    ensures (text + "{") + Entries(CanonicalEntries(StableSort(entries)[0..]), false) == text + Encode(Object(entries))
  {
    assert StableSort(entries)[0..] == StableSort(entries);
    CanonicalSort(entries);
    ConcatAssoc(text, "{", Entries(CanonicalEntries(StableSort(entries)), false));
  }

  lemma {:induction false} CloseObject(entries: seq<Entry>)
    ensures Entries(CanonicalEntries(entries[|entries|..]), |entries| > 0) == "}"
  {
  }

  lemma {:induction false} NextEntry(entries: seq<Entry>, i: nat, text: string)
    requires i < |entries|
    ensures text + Entries(CanonicalEntries(entries[i..]), i > 0) ==
            ((((text + (if i > 0 then "," else "")) + Quoted(entries[i].key)) + ":") + Encode(entries[i].value))
            + Entries(CanonicalEntries(entries[i + 1..]), true)
  {
    hide Quoted, Write;
    assert entries[i..][0] == entries[i] && entries[i..][1..] == entries[i + 1..];
    var cs := CanonicalEntries(entries[i..]);
    var more := Entries(CanonicalEntries(entries[i + 1..]), true);
    var key, text' := Quoted(entries[i].key), Encode(entries[i].value);
    assert cs[0] == Entry(entries[i].key, Canonical(entries[i].value));
    assert cs[1..] == CanonicalEntries(entries[i + 1..]);
    var comma := if i > 0 then "," else "";
    ConcatAssoc(text, comma, Member(cs[0]) + more);
    ConcatAssoc(text + comma, Member(cs[0]), more);
    ConcatAssoc(text + comma, key, ":" + text');
    ConcatAssoc(text + comma + key, ":", text');
  }

  lemma {:induction false} EntryPartSize(entries: seq<Entry>, i: nat)
    requires i < |entries|
    ensures Size(entries[i].value) <= EntriesSize(entries)
  {
    if i > 0 {
      EntryPartSize(entries[1..], i - 1);
    }
  }
}
