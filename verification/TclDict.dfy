/**
 Dictionaries: an ordered list of entries with an index beside it, their string
 form, and the operations on a path of keys through nested dictionaries, each of
 which is stored as the string form of its value.
 */
module TclDict {
  import opened Wrappers
  import opened TclList
  import opened TclQuote

  datatype DictError = BadList(error: ListError) | MissingValue | KeyNotKnown(key: string)

  type Entries = seq<(string, string)>

  // ----- entries

  predicate Unique(es: Entries) {
    forall i, j :: 0 <= i < j < |es| ==> es[i].0 != es[j].0
  }

  /** Where a key is. */
  function Find(es: Entries, key: string): (r: Option<nat>)
    ensures r.Some? ==> r.value < |es| && es[r.value].0 == key
    ensures r.None? ==> forall e :: e in es ==> e.0 != key
  {
    if es == [] then None
    else if es[|es| - 1].0 == key then Some(|es| - 1)
    else Find(es[..|es| - 1], key)
  }

  function GetIn(es: Entries, key: string): Option<string> {
    var at := Find(es, key);
    if at.Some? then Some(es[at.value].1) else None
  }

  function PutIn(es: Entries, key: string, value: string): Entries {
    var at := Find(es, key);
    if at.Some? then es[at.value := (key, value)] else es + [(key, value)]
  }

  function RemoveIn(es: Entries, key: string): Entries {
    var at := Find(es, key);
    if at.Some? then Dropped(es, at.value) else es
  }

  function KeysOf(es: Entries): seq<string> {
    seq(|es|, i requires 0 <= i < |es| => es[i].0)
  }

  /** With unique keys, the entry with a key is the one that is found. */
  lemma FindIs(es: Entries, i: nat)
    requires Unique(es) && i < |es|
    ensures Find(es, es[i].0) == Some(i)
  {
    var at := Find(es, es[i].0);
    assert es[i] in es;
  }

  lemma PutThenGet(es: Entries, key: string, value: string, other: string)
    requires Unique(es)
    ensures Unique(PutIn(es, key, value))
    ensures GetIn(PutIn(es, key, value), other) == if other == key then Some(value) else GetIn(es, other)
  {
    var at, out := Find(es, key), PutIn(es, key, value);
    assert Unique(out) by {
      forall i, j | 0 <= i < j < |out| ensures out[i].0 != out[j].0 {
        if at.None? { assert es[i] in es; }
      }
    }
    forall e: (string, string) | e.0 != key ensures e in es <==> e in out {
      if e in es {
        var i :| 0 <= i < |es| && es[i] == e;
        assert out[i] == e;
      }
    }
    SameKeyElsewhere(es, out, key, other);
    if other == key {
      FindIs(out, if at.Some? then at.value else |es|);
    }
  }

  /** Entries that agree on every key but one find the other keys alike. */
  lemma SameKeyElsewhere(es: Entries, out: Entries, key: string, other: string)
    requires Unique(es) && Unique(out)
    requires forall e: (string, string) :: e.0 != key ==> (e in es <==> e in out)
    ensures other != key ==> GetIn(out, other) == GetIn(es, other)
  {
    if other != key {
      var a, b := Find(es, other), Find(out, other);
      if a.Some? {
        assert es[a.value] in out;
        var j :| 0 <= j < |out| && out[j] == es[a.value];
        FindIs(out, j);
      } else {
        assert forall j :: 0 <= j < |out| && out[j].0 == other ==> out[j] in es;
      }
    }
  }

  lemma RemoveThenGet(es: Entries, key: string, other: string)
    requires Unique(es)
    ensures Unique(RemoveIn(es, key))
    ensures GetIn(RemoveIn(es, key), other) == if other == key then None else GetIn(es, other)
  {
    var at, out := Find(es, key), RemoveIn(es, key);
    if at.Some? {
      assert forall i :: 0 <= i < |out| ==> out[i] == es[if i < at.value then i else i + 1];
      assert es == es[..at.value] + [es[at.value]] + es[at.value + 1..];
      SameKeyElsewhere(es, out, key, other);
      if other == key {
        var b := Find(out, key);
        if b.Some? { FindIs(es, if b.value < at.value then b.value else b.value + 1); }
      }
    }
  }

  function Dropped(es: Entries, at: nat): Entries
    requires at < |es|
  {
    es[..at] + es[at + 1..]
  }

  lemma FindInDropped(es: Entries, at: nat, j: nat)
    requires at < |es| && j < |es| && j != at && Unique(Dropped(es, at))
    ensures Find(Dropped(es, at), es[j].0) == Some(if j > at then j - 1 else j)
  {
    hide Unique, Find;
    FindIs(Dropped(es, at), if j > at then j - 1 else j);
  }

  lemma FindAfterRemove(es: Entries, key: string, other: string)
    requires Unique(es)
    ensures
      var (at, found) := (Find(es, key), Find(es, other));
      Find(RemoveIn(es, key), other) ==
        if other == key || found.None? then None
        else if at.Some? && found.value > at.value then Some(found.value - 1)
        else found
  {
    hide Unique, Find, Dropped;
    RemoveThenGet(es, key, other);
    var (at, found) := (Find(es, key), Find(es, other));
    if other != key && found.Some? && at.Some? {
      FindInDropped(es, at.value, found.value);
    }
  }

  /** Updating keeps the order of first insertion, and a removal closes the gap. */
  lemma OrderOfKeys(es: Entries, key: string, value: string)
    ensures KeysOf(PutIn(es, key, value)) == if key in KeysOf(es) then KeysOf(es) else KeysOf(es) + [key]
    ensures key !in KeysOf(es) ==> RemoveIn(PutIn(es, key, value), key) == es && RemoveIn(es, key) == es
  {
    var at := Find(es, key);
    if at.Some? {
      assert KeysOf(es)[at.value] == key;
    } else {
      forall i | 0 <= i < |es| ensures KeysOf(es)[i] != key { assert es[i] in es; }
    }
  }

  // ----- the index

  ghost predicate Indexes(es: Entries, index: map<string, nat>) {
    Unique(es) && forall key :: if key in index then Find(es, key) == Some(index[key]) else Find(es, key) == None
  }

  lemma IndexHas(es: Entries, index: map<string, nat>, key: string)
    requires Indexes(es, index)
    ensures if key in index then Find(es, key) == Some(index[key]) else Find(es, key) == None
  {
  }

  /** Forget a key, and move the ones after it down. */
  function Without(index: map<string, nat>, key: string): map<string, nat> {
    if key in index then map k | k in index && k != key :: if index[k] > index[key] then index[k] - 1 else index[k]
    else index
  }

  lemma RemoveIndexes(es: Entries, index: map<string, nat>, key: string)
    requires Indexes(es, index)
    ensures Indexes(RemoveIn(es, key), Without(index, key))
  {
    RemoveThenGet(es, key, key);
    IndexHas(es, index, key);
    var out, without := RemoveIn(es, key), Without(index, key);
    hide Find, RemoveIn;
    forall k ensures if k in without then Find(out, k) == Some(without[k]) else Find(out, k) == None {
      IndexHas(es, index, k);
      FindAfterRemove(es, key, k);
    }
  }

  // ----- the dictionary, as the program keeps it

  class Dict {
    var entries: Entries
    var index: map<string, nat>

    /** The index says where every key is, and nothing else. */
    ghost predicate Valid()
      reads this
    {
      Indexes(entries, index)
    }

    constructor ()
      ensures Valid() && entries == []
    {
      entries, index := [], map[];
    }

    method Get(key: string) returns (value: Option<string>)
      requires Valid()
      ensures value == GetIn(entries, key)
    {
      value := if key in index then Some(entries[index[key]].1) else None;
    }

    /** Insert or update.  An existing key keeps the position it was first given. */
    method Put(key: string, value: string)
      requires Valid()
      modifies this
      ensures Valid() && entries == PutIn(old(entries), key, value)
    {
      PutThenGet(entries, key, value, key);
      if key in index {
        entries := entries[index[key] := (key, value)];
      } else {
        index := index[key := |entries|];
        entries := entries + [(key, value)];
      }
      assert entries == PutIn(old(entries), key, value);
      forall k ensures if k in index then Find(entries, k) == Some(index[k]) else Find(entries, k) == None {
        if k in index {
          assert k == key || Find(old(entries), k) == Some(index[k]);
          FindIs(entries, index[k]);
        } else {
          PutThenGet(old(entries), key, value, k);
          assert Find(old(entries), k) == None;
        }
      }
    }

    method Remove(key: string)
      requires Valid()
      modifies this
      ensures Valid() && entries == RemoveIn(old(entries), key)
    {
      RemoveIndexes(entries, index, key);
      hide Indexes, Find;
      if key in index {
        var i := index[key];
        assert Find(entries, key) == Some(i) by { IndexHas(entries, index, key); }
        index := map k | k in index && k != key :: if index[k] > i then index[k] - 1 else index[k];
        entries := entries[..i] + entries[i + 1..];
      } else {
        IndexHas(entries, index, key);
        assert Without(index, key) == index;
      }
    }

    /** The canonical string form. */
    method ToList() returns (text: string)
      ensures text == TextOf(entries)
    {
      var flat: seq<string> := [];
      for k := 0 to |entries|
        invariant flat + Flat(entries[k..]) == Flat(entries)
      {
        assert entries[k..][0] == entries[k] && entries[k..][1..] == entries[k + 1..];
        flat := flat + [entries[k].0, entries[k].1];
      }
      assert flat == Flat(entries);
      text := Join(flat);
    }
  }

  // ----- the string form

  function Flat(es: Entries): seq<string> {
    if es == [] then [] else [es[0].0, es[0].1] + Flat(es[1..])
  }

  function TextOf(es: Entries): string {
    Joined(Flat(es))
  }

  /** The entries of a flat list, from left to right. */
  function PutAll(es: Entries, flat: seq<string>): Entries
    requires |flat| % 2 == 0
    decreases |flat|
  {
    if flat == [] then es else PutAll(PutIn(es, flat[0], flat[1]), flat[2..])
  }

  function ParseOf(text: string): Result<Entries, DictError> {
    var flat := Elements(text, 0);
    if flat.Err? then Err(BadList(flat.error))
    else if |flat.value| % 2 != 0 then Err(MissingValue)
    else Ok(PutAll([], flat.value))
  }

  method Parse(text: string) returns (r: Result<Dict, DictError>)
    ensures r.Ok? <==> ParseOf(text).Ok?
    ensures r.Ok? ==> fresh(r.value) && r.value.Valid() && r.value.entries == ParseOf(text).value
    ensures r.Err? ==> r.error == ParseOf(text).error
  {
    hide Elements, PutIn, Unique, Find;
    var flat := Split(text);
    if flat.Err? { return Err(BadList(flat.error)); }
    var xs := flat.value;
    if |xs| % 2 != 0 { return Err(MissingValue); }
    var d := new Dict();
    var k := 0;
    assert xs[0..] == xs;
    while k < |xs|
      invariant fresh(d) && d.Valid() && k % 2 == 0 && k <= |xs|
      invariant PutAll(d.entries, xs[k..]) == PutAll([], xs)
    {
      assert xs[k..][0] == xs[k] && xs[k..][1] == xs[k + 1] && xs[k..][2..] == xs[k + 2..];
      d.Put(xs[k], xs[k + 1]);
      k := k + 2;
    }
    return Ok(d);
  }

  lemma {:induction false} PutAllIsUnique(es: Entries, flat: seq<string>)
    requires Unique(es) && |flat| % 2 == 0
    ensures Unique(PutAll(es, flat))
    decreases |flat|
  {
    if flat != [] {
      PutThenGet(es, flat[0], flat[1], flat[0]);
      PutAllIsUnique(PutIn(es, flat[0], flat[1]), flat[2..]);
    }
  }

  lemma ParsedIsUnique(text: string)
    requires ParseOf(text).Ok?
    ensures Unique(ParseOf(text).value)
  {
    PutAllIsUnique([], Elements(text, 0).value);
  }

  lemma {:induction false} PutAllBack(es: Entries, rest: Entries)
    requires Unique(es + rest)
    ensures |Flat(rest)| % 2 == 0 && PutAll(es, Flat(rest)) == es + rest
    decreases |rest|
  {
    if rest == [] {
      assert es + rest == es;
    } else {
      var e := rest[0];
      NewKey(es, rest);
      assert Flat(rest)[0] == e.0 && Flat(rest)[1] == e.1 && Flat(rest)[2..] == Flat(rest[1..]);
      hide Unique, Find, Flat;
      PutAllBack(es + [e], rest[1..]);
    }
  }

  lemma NewKey(es: Entries, rest: Entries)
    requires Unique(es + rest) && rest != []
    ensures PutIn(es, rest[0].0, rest[0].1) == es + [rest[0]] && es + rest == (es + [rest[0]]) + rest[1..]
  {
    hide Find;
    assert (es + rest)[|es|] == rest[0] && forall j :: 0 <= j < |es| ==> (es + rest)[j] == es[j];
    assert Find(es, rest[0].0).None?;
  }

  /** Parsing the string form of a dictionary gives it back, its entries in order. */
  lemma ParseOfText(es: Entries)
    requires Unique(es)
    ensures ParseOf(TextOf(es)) == Ok(es)
  {
    SplitOfJoin(Flat(es));
    assert [] + es == es;
    PutAllBack([], es);
  }

  // ----- paths of keys

  /** The value at the end of a path; a step that is missing is not an error, a step that is no dictionary is. */
  function Lookup(text: string, keys: seq<string>): Result<Option<string>, DictError>
    requires keys != []
    decreases |keys|
  {
    var d := ParseOf(text);
    if d.Err? then Err(d.error)
    else
      var found := GetIn(d.value, keys[0]);
      if |keys| == 1 || found.None? then Ok(found) else Lookup(found.value, keys[1..])
  }

  /** `dict getdef`. */
  method GetDef(text: string, path: seq<string>, last: string, fallback: string) returns (r: Result<string, DictError>)
    ensures
      var found := Lookup(text, path + [last]);
      r == if found.Err? then Err(found.error) else if found.value.Some? then Ok(found.value.value) else Ok(fallback)
  {
    var parsed := Parse(text);
    if parsed.Err? { return Err(parsed.error); }
    var current := parsed.value;
    ghost var here := text;
    assert path[0..] == path;
    for k := 0 to |path|
      invariant current.Valid() && ParseOf(here) == Ok(current.entries)
      invariant Lookup(text, path + [last]) == Lookup(here, path[k..] + [last])
    {
      assert (path[k..] + [last])[0] == path[k] && (path[k..] + [last])[1..] == path[k + 1..] + [last];
      var next := current.Get(path[k]);
      if next.None? { return Ok(fallback); }
      here := next.value;
      parsed := Parse(next.value);
      if parsed.Err? { return Err(parsed.error); }
      current := parsed.value;
    }
    assert path[|path|..] + [last] == [last];
    var found := current.Get(last);
    r := Ok(if found.Some? then found.value else fallback);
  }

  function SetOf(text: string, keys: seq<string>, value: string): Result<string, DictError>
    requires keys != []
    decreases |keys|
  {
    var d := ParseOf(text);
    if d.Err? then Err(d.error)
    else if |keys| == 1 then Ok(TextOf(PutIn(d.value, keys[0], value)))
    else
      var found := GetIn(d.value, keys[0]);
      var inner := SetOf(if found.Some? then found.value else "", keys[1..], value);
      if inner.Err? then inner else Ok(TextOf(PutIn(d.value, keys[0], inner.value)))
  }

  /** `dict set` down a path of keys, creating the dictionaries it needs. */
  method DictSet(text: string, keys: seq<string>, value: string) returns (r: Result<string, DictError>)
    requires keys != []
    ensures r == SetOf(text, keys, value)
    decreases |keys|
  {
    var parsed := Parse(text);
    if parsed.Err? { return Err(parsed.error); }
    var d := parsed.value;
    if |keys| == 1 {
      d.Put(keys[0], value);
    } else {
      var found := d.Get(keys[0]);
      var inner := DictSet(if found.Some? then found.value else "", keys[1..], value);
      if inner.Err? { return inner; }
      d.Put(keys[0], inner.value);
    }
    var out := d.ToList();
    return Ok(out);
  }

  function UnsetOf(text: string, keys: seq<string>): Result<string, DictError>
    requires keys != []
    decreases |keys|
  {
    var d := ParseOf(text);
    if d.Err? then Err(d.error)
    else if |keys| == 1 then Ok(TextOf(RemoveIn(d.value, keys[0])))
    else
      var found := GetIn(d.value, keys[0]);
      if found.None? then Err(KeyNotKnown(keys[0]))
      else
        var inner := UnsetOf(found.value, keys[1..]);
        if inner.Err? then inner else Ok(TextOf(PutIn(d.value, keys[0], inner.value)))
  }

  /** `dict unset`: every step but the last must resolve to a dictionary. */
  method DictUnset(text: string, keys: seq<string>) returns (r: Result<string, DictError>)
    requires keys != []
    ensures r == UnsetOf(text, keys)
    decreases |keys|
  {
    var parsed := Parse(text);
    if parsed.Err? { return Err(parsed.error); }
    var d := parsed.value;
    if |keys| == 1 {
      d.Remove(keys[0]);
    } else {
      var found := d.Get(keys[0]);
      if found.None? { return Err(KeyNotKnown(keys[0])); }
      var inner := DictUnset(found.value, keys[1..]);
      if inner.Err? { return inner; }
      d.Put(keys[0], inner.value);
    }
    var out := d.ToList();
    return Ok(out);
  }

  // ----- what a path operation does to every path

  /** Neither path is the start of the other. */
  predicate Diverge(a: seq<string>, b: seq<string>)
    requires a != [] && b != []
  {
    a[0] != b[0] || (|a| > 1 && |b| > 1 && Diverge(a[1..], b[1..]))
  }

  /** The value of one key of the text of changed entries. */
  lemma AfterPut(text: string, key: string, value: string, other: string)
    requires ParseOf(text).Ok?
    ensures
      var es := ParseOf(text).value;
      var out := ParseOf(TextOf(PutIn(es, key, value)));
      out.Ok? && GetIn(out.value, other) == if other == key then Some(value) else GetIn(es, other)
  {
    ParsedIsUnique(text);
    var es := ParseOf(text).value;
    PutThenGet(es, key, value, other);
    ParseOfText(PutIn(es, key, value));
  }

  lemma AfterRemove(text: string, key: string, other: string)
    requires ParseOf(text).Ok?
    ensures
      var es := ParseOf(text).value;
      var out := ParseOf(TextOf(RemoveIn(es, key)));
      out.Ok? && GetIn(out.value, other) == if other == key then None else GetIn(es, other)
  {
    ParsedIsUnique(text);
    var es := ParseOf(text).value;
    RemoveThenGet(es, key, other);
    ParseOfText(RemoveIn(es, key));
  }

  lemma EmptyText(keys: seq<string>)
    requires keys != []
    ensures ParseOf("") == Ok([]) && Lookup("", keys) == Ok(None)
  {
  }

  /** What `dict set` writes is read back at its path. */
  lemma {:induction false} SetThenLookup(text: string, keys: seq<string>, value: string)
    requires keys != [] && SetOf(text, keys, value).Ok?
    ensures Lookup(SetOf(text, keys, value).value, keys) == Ok(Some(value))
    decreases |keys|
  {
    hide ParseOf, PutIn, TextOf, GetIn;
    var found := GetIn(ParseOf(text).value, keys[0]);
    if |keys| == 1 {
      AfterPut(text, keys[0], value, keys[0]);
    } else {
      var inner := SetOf(if found.Some? then found.value else "", keys[1..], value);
      SetThenLookup(if found.Some? then found.value else "", keys[1..], value);
      AfterPut(text, keys[0], inner.value, keys[0]);
    }
  }

  /** `dict set` changes nothing on a path that diverges from its own. */
  lemma {:induction false} SetElsewhere(text: string, keys: seq<string>, value: string, path: seq<string>)
    requires keys != [] && path != [] && SetOf(text, keys, value).Ok? && Diverge(keys, path)
    ensures Lookup(SetOf(text, keys, value).value, path) == Lookup(text, path)
    decreases |keys|
  {
    hide ParseOf, PutIn, TextOf, GetIn;
    var found := GetIn(ParseOf(text).value, keys[0]);
    if |keys| == 1 {
      AfterPut(text, keys[0], value, path[0]);
    } else {
      var before := if found.Some? then found.value else "";
      var inner := SetOf(before, keys[1..], value);
      AfterPut(text, keys[0], inner.value, path[0]);
      if keys[0] == path[0] {
        SetElsewhere(before, keys[1..], value, path[1..]);
        EmptyText(path[1..]);
      }
    }
  }

  /** After `dict unset` nothing is at its path. */
  lemma {:induction false} UnsetThenLookup(text: string, keys: seq<string>)
    requires keys != [] && UnsetOf(text, keys).Ok?
    ensures Lookup(UnsetOf(text, keys).value, keys) == Ok(None)
    decreases |keys|
  {
    hide ParseOf, PutIn, TextOf, GetIn, RemoveIn;
    if |keys| == 1 {
      AfterRemove(text, keys[0], keys[0]);
    } else {
      var found := GetIn(ParseOf(text).value, keys[0]);
      UnsetThenLookup(found.value, keys[1..]);
      AfterPut(text, keys[0], UnsetOf(found.value, keys[1..]).value, keys[0]);
    }
  }

  lemma {:induction false} UnsetElsewhere(text: string, keys: seq<string>, path: seq<string>)
    requires keys != [] && path != [] && UnsetOf(text, keys).Ok? && Diverge(keys, path)
    ensures Lookup(UnsetOf(text, keys).value, path) == Lookup(text, path)
    decreases |keys|
  {
    hide ParseOf, PutIn, TextOf, GetIn, RemoveIn;
    if |keys| == 1 {
      AfterRemove(text, keys[0], path[0]);
    } else {
      var found := GetIn(ParseOf(text).value, keys[0]);
      AfterPut(text, keys[0], UnsetOf(found.value, keys[1..]).value, path[0]);
      if keys[0] == path[0] { UnsetElsewhere(found.value, keys[1..], path[1..]); }
    }
  }

  /** `dict set` fails exactly when reading its path does. */
  lemma {:induction false} SetSucceeds(text: string, keys: seq<string>, value: string)
    requires keys != []
    ensures SetOf(text, keys, value).Ok? <==> Lookup(text, keys).Ok?
    decreases |keys|
  {
    hide ParseOf, PutIn, TextOf, GetIn;
    if ParseOf(text).Ok? && |keys| > 1 {
      var found := GetIn(ParseOf(text).value, keys[0]);
      SetSucceeds(if found.Some? then found.value else "", keys[1..], value);
      EmptyText(keys[1..]);
    }
  }

  /** `dict unset` succeeds exactly when reading its path does and every step but the last is there. */
  lemma {:induction false} UnsetSucceeds(text: string, keys: seq<string>)
    requires keys != []
    ensures UnsetOf(text, keys).Ok? <==>
      Lookup(text, keys).Ok? && (|keys| > 1 ==> Lookup(text, keys[..|keys| - 1]).Ok? && Lookup(text, keys[..|keys| - 1]).value.Some?)
    decreases |keys|
  {
    hide ParseOf, PutIn, TextOf, GetIn, RemoveIn;
    if ParseOf(text).Ok? && |keys| > 1 {
      var found := GetIn(ParseOf(text).value, keys[0]);
      if found.Some? {
        UnsetSucceeds(found.value, keys[1..]);
        assert keys[..|keys| - 1][1..] == keys[1..][..|keys| - 2];
      }
    }
  }

  /** Of two writes to one path the second is what counts. */
  lemma {:induction false} LastWriteWins(text: string, keys: seq<string>, a: string, b: string)
    requires keys != [] && SetOf(text, keys, a).Ok?
    ensures SetOf(SetOf(text, keys, a).value, keys, b) == SetOf(text, keys, b)
    decreases |keys|
  {
    hide ParseOf, TextOf, PutIn, GetIn;
    var es, key := ParseOf(text).value, keys[0];
    ParsedIsUnique(text);
    if |keys| == 1 {
      PutTwice(es, key, a, b);
    } else {
      var found := GetIn(es, key);
      var before := if found.Some? then found.value else "";
      LastWriteWins(before, keys[1..], a, b);
      SetSucceeds(before, keys[1..], a);
      SetSucceeds(before, keys[1..], b);
      PutTwice(es, key, SetOf(before, keys[1..], a).value, SetOf(before, keys[1..], b).value);
    }
  }

  lemma PutTwice(es: Entries, key: string, a: string, b: string)
    requires Unique(es)
    ensures ParseOf(TextOf(PutIn(es, key, a))) == Ok(PutIn(es, key, a))
    ensures GetIn(PutIn(es, key, a), key) == Some(a)
    ensures PutIn(PutIn(es, key, a), key, b) == PutIn(es, key, b)
  {
    PutThenGet(es, key, a, key);
    ParseOfText(PutIn(es, key, a));
    var at := Find(es, key);
    FindIs(PutIn(es, key, a), if at.Some? then at.value else |es|);
  }

  /** Below its path what `dict set` writes is read as the dictionary it is. */
  lemma {:induction false} SetBelow(text: string, keys: seq<string>, value: string, more: seq<string>)
    requires keys != [] && more != [] && SetOf(text, keys, value).Ok?
    ensures Lookup(SetOf(text, keys, value).value, keys + more) == Lookup(value, more)
    decreases |keys|
  {
    hide ParseOf, PutIn, TextOf, GetIn;
    var path := keys + more;
    assert path[0] == keys[0] && path[1..] == keys[1..] + more;
    var found := GetIn(ParseOf(text).value, keys[0]);
    if |keys| == 1 {
      AfterPut(text, keys[0], value, keys[0]);
      assert path[1..] == more;
    } else {
      var before := if found.Some? then found.value else "";
      SetBelow(before, keys[1..], value, more);
      AfterPut(text, keys[0], SetOf(before, keys[1..], value).value, keys[0]);
    }
  }

  // ----- the order of the keys

  /** The text of the dictionary at the end of a path; of one that is not there, nothing. */
  function TextAt(text: string, path: seq<string>): string
    decreases |path|
  {
    if path == [] then text
    else
      var d := ParseOf(text);
      var found := if d.Ok? then GetIn(d.value, path[0]) else None;
      TextAt(if found.Some? then found.value else "", path[1..])
  }

  /** At every step of its path `dict set` keeps the order of the keys, a new one last. */
  lemma {:induction false} SetKeepsOrder(text: string, keys: seq<string>, value: string, k: nat)
    requires k < |keys| && SetOf(text, keys, value).Ok?
    ensures
      var before := ParseOf(TextAt(text, keys[..k]));
      var after := ParseOf(TextAt(SetOf(text, keys, value).value, keys[..k]));
      && before.Ok? && after.Ok?
      && KeysOf(after.value) == if keys[k] in KeysOf(before.value) then KeysOf(before.value) else KeysOf(before.value) + [keys[k]]
    decreases k
  {
    hide ParseOf, PutIn, TextOf, GetIn, KeysOf;
    var es, key := ParseOf(text).value, keys[0];
    var found := GetIn(es, key);
    var before := if found.Some? then found.value else "";
    var put := if |keys| == 1 then value else SetOf(before, keys[1..], value).value;
    if k == 0 {
      assert keys[..k] == [];
      PutOrder(text, key, put);
    } else {
      SetKeepsOrder(before, keys[1..], value, k - 1);
      assert keys[..k][0] == key && keys[..k][1..] == keys[1..][..k - 1];
      AfterPut(text, key, put, key);
    }
  }

  lemma PutOrder(text: string, key: string, value: string)
    requires ParseOf(text).Ok?
    ensures
      var es := ParseOf(text).value;
      var out := ParseOf(TextOf(PutIn(es, key, value)));
      out.Ok? && KeysOf(out.value) == if key in KeysOf(es) then KeysOf(es) else KeysOf(es) + [key]
  {
    ParsedIsUnique(text);
    var es := ParseOf(text).value;
    PutThenGet(es, key, value, key);
    ParseOfText(PutIn(es, key, value));
    OrderOfKeys(es, key, value);
  }

  /** What is left of the keys of a dictionary without one of them, in order. */
  predicate WithoutKey(before: seq<string>, key: string, after: seq<string>) {
    if key in before then exists i | 0 <= i < |before| :: before[i] == key && after == before[..i] + before[i + 1..]
    else after == before
  }

  /** `dict unset` takes the last key of its path out of the keys there, and leaves those on the way as they are. */
  lemma {:induction false} UnsetKeepsOrder(text: string, keys: seq<string>, k: nat)
    requires k < |keys| && UnsetOf(text, keys).Ok?
    ensures
      var before := ParseOf(TextAt(text, keys[..k]));
      var after := ParseOf(TextAt(UnsetOf(text, keys).value, keys[..k]));
      && before.Ok? && after.Ok?
      && if k == |keys| - 1 then WithoutKey(KeysOf(before.value), keys[k], KeysOf(after.value))
         else KeysOf(after.value) == KeysOf(before.value)
    decreases k
  {
    hide ParseOf, PutIn, TextOf, GetIn, KeysOf, RemoveIn, WithoutKey;
    var es, key := ParseOf(text).value, keys[0];
    if |keys| == 1 {
      assert keys[..k] == [];
      RemoveOrder(text, key);
    } else {
      var found := GetIn(es, key);
      var put := UnsetOf(found.value, keys[1..]).value;
      if k == 0 {
        assert keys[..k] == [];
        PutOrder(text, key, put);
        FoundIsKey(es, key);
      } else {
        UnsetKeepsOrder(found.value, keys[1..], k - 1);
        assert keys[..k][0] == key && keys[..k][1..] == keys[1..][..k - 1];
        AfterPut(text, key, put, key);
      }
    }
  }

  lemma FoundIsKey(es: Entries, key: string)
    ensures GetIn(es, key).Some? ==> key in KeysOf(es)
  {
    var at := Find(es, key);
    if at.Some? { assert KeysOf(es)[at.value] == key; }
  }

  lemma RemoveOrder(text: string, key: string)
    requires ParseOf(text).Ok?
    ensures
      var es := ParseOf(text).value;
      var out := ParseOf(TextOf(RemoveIn(es, key)));
      out.Ok? && WithoutKey(KeysOf(es), key, KeysOf(out.value))
  {
    hide ParseOf, TextOf, Unique, KeysOf, RemoveIn, WithoutKey;
    ParsedIsUnique(text);
    var es := ParseOf(text).value;
    RemoveThenGet(es, key, key);
    ParseOfText(RemoveIn(es, key));
    KeysWithout(es, key);
  }

  lemma KeysWithout(es: Entries, key: string)
    ensures WithoutKey(KeysOf(es), key, KeysOf(RemoveIn(es, key)))
  {
    var at := Find(es, key);
    if at.Some? {
      var (before, after) := (KeysOf(es), KeysOf(Dropped(es, at.value)));
      assert before[at.value] == key;
      assert after == before[..at.value] + before[at.value + 1..];
    } else {
      forall i | 0 <= i < |es| ensures KeysOf(es)[i] != key { assert es[i] in es; }
    }
  }

  /** Of the pairs of a list the last with a key gives its value. */
  lemma LastPairWins(flat: seq<string>, key: string, value: string, other: string)
    requires |flat| % 2 == 0
    ensures
      var (es, out) := (ParseOf(Joined(flat)), ParseOf(Joined(flat + [key, value])));
      es.Ok? && out.Ok? && GetIn(out.value, other) == if other == key then Some(value) else GetIn(es.value, other)
  {
    hide *;
    PairsAreParsed(flat, []);
    PairsAreParsed(flat + [key, value], []);
    PutAllSnoc([], flat, key, value);
    PutThenGet(PutAll([], flat), key, value, other);
  }

  lemma PairsAreParsed(flat: seq<string>, none: Entries)
    requires |flat| % 2 == 0 && none == []
    ensures ParseOf(Joined(flat)) == Ok(PutAll(none, flat)) && Unique(PutAll(none, flat))
  {
    SplitOfJoin(flat);
    PutAllIsUnique(none, flat);
    hide PutAll, Joined, Elements;
  }

  lemma {:induction false} PutAllSnoc(es: Entries, flat: seq<string>, key: string, value: string)
    requires |flat| % 2 == 0
    ensures PutAll(es, flat + [key, value]) == PutIn(PutAll(es, flat), key, value)
    decreases |flat|
  {
    hide PutIn;
    var all := flat + [key, value];
    if flat == [] {
      assert all[2..] == [] && all[0] == key && all[1] == value;
    } else {
      assert all[0] == flat[0] && all[1] == flat[1] && all[2..] == flat[2..] + [key, value];
      PutAllSnoc(PutIn(es, flat[0], flat[1]), flat[2..], key, value);
    }
  }
}
