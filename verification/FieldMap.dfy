/** Maps with unique keys: the two duplicate-key validators and the two lookups, as functions
    of the bytes, and the finite maps of trees they stand for. */
module FieldMap {
  import opened Bytes
  import opened MessagePack
  import opened Walker
  import opened Readers

  const MAX_FIELDS: nat := 64

  // ---- keys ----

  /** Message fields are keyed by integers; structured values by integers or UTF-8 text. */
  datatype KeyRule = IntegersOnly | TextToo(utf8: bytes -> bool)

  datatype Key = Integer(id: int) | Text(text: bytes)

  predicate TextMarker(b: byte) {
    0xa0 <= b <= 0xbf || 0xd9 <= b <= 0xdb
  }

  function ReadKey(rule: KeyRule, data: bytes, pos: nat): (r: Option<(Key, nat)>)
    ensures r.Some? ==> pos < r.value.1 <= |data|
  {
    if rule.TextToo? && pos < |data| && TextMarker(data[pos]) then
      match ReadBin(data, pos)
      case Ok((body, end)) => if rule.utf8(body) then Some((Text(body), end)) else None
      case Err(_) => None
    else
      var (id, end) :- ReadFieldId(data, pos);
      Some((Integer(id), end))
  }

  /** The key a tree denotes under a rule. */
  function KeyOf(rule: KeyRule, v: Value): Option<Key>
    requires WellFormed(v)
  {
    if v.Str? then
      if rule.TextToo? && rule.utf8(v.body) then Some(Text(v.body)) else None
    else
      var id :- IntOf(v);
      Some(Integer(id))
  }

  lemma KeyOfTree(rule: KeyRule, data: bytes, pos: nat, v: Value)
    requires WellFormed(v) && At(data, pos, Encode(v))
    ensures ReadKey(rule, data, pos)
         == match KeyOf(rule, v) case Some(key) => Some((key, pos + |Encode(v)|)) case None => None
  {
    FieldIdOfInteger(data, pos, v);
    TextShape(data, pos, v);
    if v.Str? {
      ReadBinOfString(data, pos, v);
    }
    hide ReadBin;
    hide ReadFieldId;
    hide WellFormed;
    hide Encode;
  }

  lemma TextShape(data: bytes, pos: nat, v: Value)
    requires WellFormed(v) && At(data, pos, Encode(v))
    ensures pos < |data| && (TextMarker(data[pos]) <==> v.Str?)
  {
    AtConcat(data, pos, Header(v), Payload(v));
    assert data[pos] == data[pos..pos + |Header(v)|][0];
    hide ToBigEndian;
    hide Pow256;
  }

  lemma KeyTree(rule: KeyRule, data: bytes, pos: nat) returns (v: Value)
    requires ReadKey(rule, data, pos).Some?
    ensures Denotes(v, data, pos, ReadKey(rule, data, pos).value.1, MAX_DEPTH)
    ensures KeyOf(rule, v) == Some(ReadKey(rule, data, pos).value.0)
  {
    hide ReadBin;
    hide ReadFieldId;
    hide WellFormed;
    hide Encode;
    if rule.TextToo? && pos < |data| && TextMarker(data[pos]) {
      v := StringAtReadBin(data, pos);
      TextShape(data, pos, v);
    } else {
      v := IntegerAt(data, pos);
    }
  }

  // ---- the walk over the entries ----

  function ReadMapHeader(data: bytes): (r: Option<(nat, nat)>)
    ensures r.Some? ==> r.value.0 <= |data|
  {
    if data == [] then None
    else if 0x80 <= data[0] <= 0x8f then Some((1, data[0] % 16))
    else if data[0] == 0xde && |data| >= 3 then Some((3, BigEndian(data[1..3])))
    else if data[0] == 0xdf && |data| >= 5 then Some((5, BigEndian(data[1..5])))
    else None
  }

  /** Read `count` entries from `pos`: keys readable and not among `seen` nor each other,
      values complete, and nothing left over. */
  function CheckEntries(rule: KeyRule, data: bytes, pos: nat, count: nat, seen: set<Key>): Result<()>
    decreases count
  {
    if count == 0 then
      if pos == |data| then Ok(()) else Err(MalformedPayload)
    else
      match ReadKey(rule, data, pos)
      case None => Err(MalformedPayload)
      case Some((key, after)) =>
        if key in seen then
          Err(DuplicateField)
        else
          var next :- SkipValue(data, after, 0);
          CheckEntries(rule, data, next, count - 1, seen + {key})
  }

  /** What the scratch-backed validator answers; anything but a readable map passes. */
  function FieldsVerdict(fields: bytes): Result<()> {
    match ReadMapHeader(fields)
    case None => Ok(())
    case Some((first, count)) =>
      if count > MAX_FIELDS then Err(TooManyFields)
      else if count > (|fields| - first) / 2 then Err(MalformedPayload)
      else CheckEntries(IntegersOnly, fields, first, count, {})
  }

  /** What the validator without scratch answers; only a readable map passes. */
  function StrictFieldsVerdict(fields: bytes): Result<()> {
    match ReadMapHeader(fields)
    case None => Err(MalformedPayload)
    case Some((first, count)) =>
      if count > MAX_FIELDS then Err(TooManyFields)
      else CheckEntries(IntegersOnly, fields, first, count, {})
  }

  /** The first entry with the wanted key. */
  function FindEntry(rule: KeyRule, data: bytes, pos: nat, count: nat, wanted: Key): Option<bytes>
    decreases count
  {
    if count == 0 then
      None
    else
      var (key, after) :- ReadKey(rule, data, pos);
      match SkipValue(data, after, 0)
      case Err(_) => None
      case Ok(end) =>
        if key == wanted then Some(data[after..end]) else FindEntry(rule, data, end, count - 1, wanted)
  }

  function FieldValueId(fields: bytes, id: int): Option<bytes> {
    if StrictFieldsVerdict(fields).Ok? then
      var (first, count) := ReadMapHeader(fields).value;
      FindEntry(IntegersOnly, fields, first, count, Integer(id))
    else
      None
  }

  function MapBytesValue(utf8: bytes -> bool, data: bytes, key: bytes): Option<bytes> {
    if !utf8(key) then
      None
    else
      var (first, count) :- ReadMapHeader(data);
      if count > MAX_FIELDS || count > (|data| - first) / 2 then None
      else if CheckEntries(TextToo(utf8), data, first, count, {}).Ok? then
        FindEntry(TextToo(utf8), data, first, count, Text(key))
      else None
  }

  // ---- the trees behind a walk ----

  lemma FirstPair(items: seq<Value>)
    requires AllWellFormed(items) && |items| >= 2
    ensures WellFormed(items[0]) && WellFormed(items[1]) && AllWellFormed(items[2..])
  {
    assert items[1..][0] == items[1] && items[1..][1..] == items[2..];
  }

  /** Keys and values alternate; keys are admitted by the rule and new, values fit the limit. */
  predicate EntriesOk(rule: KeyRule, items: seq<Value>, seen: set<Key>)
    requires AllWellFormed(items)
  {
    if |items| < 2 then
      items == []
    else
      FirstPair(items);
      && KeyOf(rule, items[0]).Some?
      && KeyOf(rule, items[0]).value !in seen
      && Nesting(items[1]) <= MAX_DEPTH
      && EntriesOk(rule, items[2..], seen + {KeyOf(rule, items[0]).value})
  }

  /** The finite map an entry list stands for. */
  ghost function AsMap(rule: KeyRule, items: seq<Value>, seen: set<Key>): map<Key, bytes>
    requires AllWellFormed(items) && EntriesOk(rule, items, seen)
  {
    if items == [] then
      map[]
    else
      FirstPair(items);
      var key := KeyOf(rule, items[0]).value;
      AsMap(rule, items[2..], seen + {key})[key := Encode(items[1])]
  }

  lemma NewKey<K, V>(m: map<K, V>, key: K, value: V)
    requires key !in m
    ensures |m[key := value]| == |m| + 1 && m[key := value].Keys == m.Keys + {key}
  {
    var more := m[key := value];
    assert more.Keys == m.Keys + {key};
    assert |more.Keys| == |m.Keys| + 1;
    assert |more| == |more.Keys| && |m| == |m.Keys|;
  }

  lemma {:induction false} AsMapKeys(rule: KeyRule, items: seq<Value>, seen: set<Key>)
    requires AllWellFormed(items) && EntriesOk(rule, items, seen)
    ensures AsMap(rule, items, seen).Keys !! seen
    ensures |AsMap(rule, items, seen)| == |items| / 2
  {
    hide KeyOf;
    hide WellFormed;
    hide Encode;
    hide Nesting;
    if items != [] {
      FirstPair(items);
      var key := KeyOf(rule, items[0]).value;
      AsMapKeys(rule, items[2..], seen + {key});
      NewKey(AsMap(rule, items[2..], seen + {key}), key, Encode(items[1]));
    }
  }

  lemma SplitEntry(data: bytes, pos: nat, items: seq<Value>)
    requires AllWellFormed(items) && |items| >= 2 && At(data, pos, EncodeAll(items))
    ensures WellFormed(items[0]) && WellFormed(items[1]) && AllWellFormed(items[2..])
    ensures At(data, pos, Encode(items[0])) && At(data, pos + |Encode(items[0])|, Encode(items[1]))
    ensures At(data, pos + |Encode(items[0])| + |Encode(items[1])|, EncodeAll(items[2..]))
    ensures |EncodeAll(items)| == |Encode(items[0])| + |Encode(items[1])| + |EncodeAll(items[2..])|
  {
    hide *;
    FirstPair(items);
    EncodeSplit(items);
    AtConcat(data, pos, Encode(items[0]), Encode(items[1]) + EncodeAll(items[2..]));
    AtConcat(data, pos + |Encode(items[0])|, Encode(items[1]), EncodeAll(items[2..]));
  }

  lemma EncodeSplit(items: seq<Value>)
    requires AllWellFormed(items) && |items| >= 2
    requires WellFormed(items[0]) && WellFormed(items[1]) && AllWellFormed(items[2..])
    ensures EncodeAll(items) == Encode(items[0]) + (Encode(items[1]) + EncodeAll(items[2..]))
  {
    hide Encode;
    hide WellFormed;
    assert items[1..][0] == items[1] && items[1..][1..] == items[2..];
  }

  /** On the encoding of an entry list, the walk succeeds just when the list is in order, and
      then a lookup is a lookup in the finite map. */
  lemma {:induction false} EntriesEncoded(rule: KeyRule, data: bytes, pos: nat, items: seq<Value>, seen: set<Key>)
    requires AllWellFormed(items) && |items| % 2 == 0
    requires At(data, pos, EncodeAll(items)) && pos + |EncodeAll(items)| == |data|
    ensures CheckEntries(rule, data, pos, |items| / 2, seen).Ok? <==> EntriesOk(rule, items, seen)
    decreases |items|
  {
    hide Encode;
    hide WellFormed;
    hide SkipValue;
    hide ReadKey;
    hide KeyOf;
    hide Nesting;
    if items != [] {
      SplitEntry(data, pos, items);
      KeyOfTree(rule, data, pos, items[0]);
      if KeyOf(rule, items[0]).Some? {
        var next := pos + |Encode(items[0])| + |Encode(items[1])|;
        SkipEncoded(data, pos + |Encode(items[0])|, 0, items[1]);
        EntriesEncoded(rule, data, next, items[2..], seen + {KeyOf(rule, items[0]).value});
      }
    }
  }

  lemma {:induction false} FindEncoded(
    rule: KeyRule, data: bytes, pos: nat, items: seq<Value>, seen: set<Key>, wanted: Key
  )
    requires AllWellFormed(items) && EntriesOk(rule, items, seen) && At(data, pos, EncodeAll(items))
    ensures FindEntry(rule, data, pos, |items| / 2, wanted)
         == var m := AsMap(rule, items, seen); if wanted in m then Some(m[wanted]) else None
    decreases |items|
  {
    hide Encode;
    hide WellFormed;
    hide SkipValue;
    hide ReadKey;
    hide KeyOf;
    hide Nesting;
    if items != [] {
      var key := KeyOf(rule, items[0]).value;
      SplitEntry(data, pos, items);
      KeyOfTree(rule, data, pos, items[0]);
      var next := pos + |Encode(items[0])| + |Encode(items[1])|;
      SkipEncoded(data, pos + |Encode(items[0])|, 0, items[1]);
      FindEncoded(rule, data, next, items[2..], seen + {key}, wanted);
    }
  }

  lemma {:induction false} EntriesDecoded(rule: KeyRule, data: bytes, pos: nat, count: nat, seen: set<Key>)
    returns (items: seq<Value>)
    requires pos <= |data| && CheckEntries(rule, data, pos, count, seen).Ok?
    ensures AllWellFormed(items) && |items| == 2 * count && EncodeAll(items) == data[pos..]
    ensures 2 * count <= |data| - pos
    decreases count
  {
    hide Encode;
    hide WellFormed;
    hide SkipValue;
    hide ReadKey;
    hide KeyOf;
    hide Nesting;
    items := [];
    if count > 0 {
      var (key, after) := ReadKey(rule, data, pos).value;
      var end := SkipValue(data, after, 0).value;
      var k := KeyTree(rule, data, pos);
      var v := SkipSound(data, after, 0);
      var rest := EntriesDecoded(rule, data, end, count - 1, seen + {key});
      items := [k, v] + rest;
      PairEncoding(k, v, rest);
      assert data[pos..] == data[pos..after] + data[after..end] + data[end..];
    }
  }

  lemma PairEncoding(k: Value, v: Value, rest: seq<Value>)
    requires WellFormed(k) && WellFormed(v) && AllWellFormed(rest)
    ensures AllWellFormed([k, v] + rest)
    ensures EncodeAll([k, v] + rest) == Encode(k) + Encode(v) + EncodeAll(rest)
    ensures ([k, v] + rest)[2..] == rest
  {
    hide Encode;
    hide WellFormed;
    var items := [k, v] + rest;
    assert items[1..] == [v] + rest && items[1..][1..] == rest;
    assert EncodeAll(items) == Encode(k) + (Encode(v) + EncodeAll(rest));
  }

  // ---- whole maps ----

  /** `data` is the encoding of a map of at most 64 entries, in order under `rule`. */
  ghost predicate IsKeyedMap(rule: KeyRule, data: bytes, form: Form, items: seq<Value>) {
    && WellFormed(Map(form, items))
    && Encode(Map(form, items)) == data
    && |items| <= 2 * MAX_FIELDS
    && EntriesOk(rule, items, {})
  }

  /** ... and the finite map it stands for sends `key` to `value`. */
  ghost predicate SendsKey(rule: KeyRule, data: bytes, form: Form, items: seq<Value>, key: Key, value: bytes) {
    && IsKeyedMap(rule, data, form, items)
    && key in AsMap(rule, items, {})
    && AsMap(rule, items, {})[key] == value
  }

  lemma MapHeaderHead(data: bytes)
    requires data != []
    ensures ReadMapHeader(data).Some?
       <==> (0x80 <= data[0] <= 0x8f || data[0] == 0xde || data[0] == 0xdf) && ReadHead(data, 0).Ok?
    ensures ReadMapHeader(data).Some?
        ==> ReadHead(data, 0) == Ok(Items(ReadMapHeader(data).value.0, 2 * ReadMapHeader(data).value.1))
  {
    hide BigEndian;
  }

  lemma MapShape(data: bytes, v: Value)
    requires WellFormed(v) && At(data, 0, Header(v))
    ensures data != [] && ((0x80 <= data[0] <= 0x8f || data[0] == 0xde || data[0] == 0xdf) <==> v.Map?)
  {
    assert data[0] == data[0..|Header(v)|][0];
    hide ToBigEndian;
    hide Pow256;
  }

  lemma MapHeaderOfTree(form: Form, items: seq<Value>)
    requires WellFormed(Map(form, items))
    ensures var v := Map(form, items);
            && ReadMapHeader(Encode(v)) == Some((|Header(v)|, |items| / 2))
            && At(Encode(v), |Header(v)|, EncodeAll(items))
            && |Encode(v)| == |Header(v)| + |EncodeAll(items)|
  {
    hide ReadMapHeader;
    hide Header;
    hide ReadHead;
    var v := Map(form, items);
    var data := Encode(v);
    assert data[0..|data|] == data;
    AtConcat(data, 0, Header(v), EncodeAll(items));
    MapHeaderHead(data);
    MapShape(data, v);
    HeadOfMap(data, 0, v);
  }

  /** The tree of a slice with a readable map header whose entries are walked to the end. */
  lemma MapDecoded(rule: KeyRule, data: bytes) returns (form: Form, items: seq<Value>)
    requires ReadMapHeader(data).Some? && ReadMapHeader(data).value.1 <= MAX_FIELDS
    requires CheckEntries(rule, data, ReadMapHeader(data).value.0, ReadMapHeader(data).value.1, {}).Ok?
    ensures IsKeyedMap(rule, data, form, items)
    ensures 2 * ReadMapHeader(data).value.1 <= |data| - ReadMapHeader(data).value.0
  {
    hide ReadHead;
    hide Header;
    hide CheckEntries;
    var (first, count) := ReadMapHeader(data).value;
    MapHeaderHead(data);
    hide ReadMapHeader;
    items := EntriesDecoded(rule, data, first, count, {});
    var v := ContainerFrom(data, 0, items);
    assert data[0..first] + data[first..] == data;
    AtConcat(data, 0, Header(v), EncodeAll(items));
    assert data[0..|data|] == data;
    MapShape(data, v);
    form := v.form;
    assert v == Map(form, items);
    MapHeaderOfTree(form, items);
    EntriesEncoded(rule, data, first, items, {});
  }

  // ---- what the validators and lookups mean ----

  /** The keys of an entry list, in order; `None` where the rule admits no key. */
  function EntryKeys(rule: KeyRule, items: seq<Value>): seq<Option<Key>>
    requires AllWellFormed(items)
  {
    if |items| < 2 then
      []
    else
      FirstPair(items);
      [KeyOf(rule, items[0])] + EntryKeys(rule, items[2..])
  }

  function EntryValues(items: seq<Value>): seq<Value> {
    if |items| < 2 then [] else [items[1]] + EntryValues(items[2..])
  }

  predicate Distinct<T(==)>(s: seq<T>) {
    forall i, j :: 0 <= i < j < |s| ==> s[i] != s[j]
  }

  ghost predicate FreshKeys(keys: seq<Option<Key>>, seen: set<Key>) {
    && Distinct(keys)
    && forall i :: 0 <= i < |keys| ==> keys[i].Some? && keys[i].value !in seen
  }

  ghost predicate Shallow(values: seq<Value>) {
    forall v :: v in values ==> Nesting(v) <= MAX_DEPTH
  }

  lemma ShallowCons(v: Value, rest: seq<Value>)
    ensures Shallow([v] + rest) <==> Nesting(v) <= MAX_DEPTH && Shallow(rest)
  {
    if Shallow([v] + rest) {
      assert ([v] + rest)[0] == v;
      assert forall u :: u in rest ==> u in [v] + rest;
    }
  }

  lemma FreshKeysCons(key: Option<Key>, rest: seq<Option<Key>>, seen: set<Key>)
    ensures FreshKeys([key] + rest, seen)
       <==> key.Some? && key.value !in seen && FreshKeys(rest, seen + {key.value})
  {
    var keys := [key] + rest;
    if FreshKeys(keys, seen) {
      assert keys[0] == key;
      forall i | 0 <= i < |rest|
        ensures rest[i].Some? && rest[i].value !in seen + {key.value}
      {
        assert rest[i] == keys[i + 1] && keys[0] != keys[i + 1];
      }
      forall i, j | 0 <= i < j < |rest|
        ensures rest[i] != rest[j]
      {
        assert rest[i] == keys[i + 1] && rest[j] == keys[j + 1];
      }
    }
    if key.Some? && key.value !in seen && FreshKeys(rest, seen + {key.value}) {
      forall i | 0 <= i < |keys|
        ensures keys[i].Some? && keys[i].value !in seen
      {
        assert i > 0 ==> keys[i] == rest[i - 1];
      }
      forall i, j | 0 <= i < j < |keys|
        ensures keys[i] != keys[j]
      {
        assert keys[j] == rest[j - 1];
        assert i > 0 ==> keys[i] == rest[i - 1];
      }
    }
  }

  /** An entry list is in order just when it is a list of pairs with admitted, pairwise
      distinct keys, and values within the nesting limit. */
  lemma {:induction false} EntriesOkMeaning(rule: KeyRule, items: seq<Value>, seen: set<Key>)
    requires AllWellFormed(items)
    ensures EntriesOk(rule, items, seen)
       <==> && |items| % 2 == 0
            && FreshKeys(EntryKeys(rule, items), seen)
            && Shallow(EntryValues(items))
    decreases |items|
  {
    hide KeyOf;
    hide WellFormed;
    hide Nesting;
    hide FreshKeys;
    hide Shallow;
    if |items| >= 2 {
      FirstPair(items);
      var key := KeyOf(rule, items[0]);
      FreshKeysCons(key, EntryKeys(rule, items[2..]), seen);
      if key.Some? {
        EntriesOkMeaning(rule, items[2..], seen + {key.value});
      }
      assert EntryKeys(rule, items) == [key] + EntryKeys(rule, items[2..]);
      ShallowCons(items[1], EntryValues(items[2..]));
    } else {
      NothingToCheck(seen);
    }
  }

  lemma NothingToCheck(seen: set<Key>)
    ensures FreshKeys([], seen) && Shallow([])
  {
  }

  /** The finite map sends the i-th key to the i-th value. */
  lemma {:induction false} AsMapAt(rule: KeyRule, items: seq<Value>, seen: set<Key>, i: nat)
    requires AllWellFormed(items) && EntriesOk(rule, items, seen) && i < |items| / 2
    ensures |EntryKeys(rule, items)| == |EntryValues(items)| == |items| / 2
    ensures EntryKeys(rule, items)[i].Some? && WellFormed(EntryValues(items)[i])
    ensures EntryKeys(rule, items)[i].value in AsMap(rule, items, seen)
    ensures AsMap(rule, items, seen)[EntryKeys(rule, items)[i].value] == Encode(EntryValues(items)[i])
    decreases |items|
  {
    hide KeyOf;
    hide WellFormed;
    hide Nesting;
    hide Encode;
    FirstPair(items);
    EntryCounts(rule, items);
    var key := KeyOf(rule, items[0]).value;
    if i > 0 {
      AsMapAt(rule, items[2..], seen + {key}, i - 1);
      AsMapKeys(rule, items[2..], seen + {key});
    }
  }

  /** The finite map has no other keys. */
  lemma {:induction false} AsMapOnly(rule: KeyRule, items: seq<Value>, seen: set<Key>, key: Key)
    requires AllWellFormed(items) && EntriesOk(rule, items, seen) && key in AsMap(rule, items, seen)
    ensures Some(key) in EntryKeys(rule, items)
    decreases |items|
  {
    hide KeyOf;
    hide WellFormed;
    hide Nesting;
    hide Encode;
    if items != [] {
      FirstPair(items);
      var first := KeyOf(rule, items[0]);
      assert EntryKeys(rule, items) == [first] + EntryKeys(rule, items[2..]);
      if key == first.value {
        assert EntryKeys(rule, items)[0] == Some(key);
      } else {
        AsMapOnly(rule, items[2..], seen + {first.value}, key);
      }
    }
  }

  lemma {:induction false} EntryCounts(rule: KeyRule, items: seq<Value>)
    requires AllWellFormed(items)
    ensures |EntryKeys(rule, items)| == |EntryValues(items)| == |items| / 2
    decreases |items|
  {
    hide KeyOf;
    if |items| >= 2 {
      FirstPair(items);
      EntryCounts(rule, items[2..]);
    }
  }

  /** Both validators accept a slice with a readable map header just when it is the encoding of
      a map of at most 64 entries with integer keys, no two the same number. */
  lemma ValidatorsAgree(fields: bytes)
    requires ReadMapHeader(fields).Some?
    ensures FieldsVerdict(fields).Ok? <==> StrictFieldsVerdict(fields).Ok?
    ensures StrictFieldsVerdict(fields).Ok? <==> exists form, items :: IsKeyedMap(IntegersOnly, fields, form, items)
  {
    hide IsKeyedMap;
    hide CheckEntries;
    hide ReadMapHeader;
    if StrictFieldsVerdict(fields).Ok? {
      var form, items := MapDecoded(IntegersOnly, fields);
      assert IsKeyedMap(IntegersOnly, fields, form, items);
    }
    if form, items :| IsKeyedMap(IntegersOnly, fields, form, items) {
      KeyedMapWalk(IntegersOnly, fields, form, items);
    }
  }

  /** The walk over a keyed map, and its bounds. */
  lemma KeyedMapWalk(rule: KeyRule, data: bytes, form: Form, items: seq<Value>)
    requires IsKeyedMap(rule, data, form, items)
    ensures ReadMapHeader(data).Some?
    ensures var (first, count) := ReadMapHeader(data).value;
            && count == |items| / 2 <= MAX_FIELDS && count <= (|data| - first) / 2
            && CheckEntries(rule, data, first, count, {}).Ok?
            && forall wanted :: FindEntry(rule, data, first, count, wanted)
                 == var m := AsMap(rule, items, {}); if wanted in m then Some(m[wanted]) else None
  {
    MapHeaderOfTree(form, items);
    hide Encode;
    hide CheckEntries;
    hide ReadMapHeader;
    hide FindEntry;
    var (first, count) := ReadMapHeader(data).value;
    assert |items| % 2 == 0;
    EntriesEncoded(rule, data, first, items, {});
    forall wanted
      ensures FindEntry(rule, data, first, count, wanted)
           == var m := AsMap(rule, items, {}); if wanted in m then Some(m[wanted]) else None
    {
      FindEncoded(rule, data, first, items, {}, wanted);
    }
  }

  /** `field_value_id` is a lookup in the finite map the slice encodes, whatever encoding the
      key has; on any other slice it finds nothing. */
  lemma FieldLookupRefinesMap(fields: bytes, id: int, value: bytes)
    ensures FieldValueId(fields, id) == Some(value)
       <==> exists form, items :: SendsKey(IntegersOnly, fields, form, items, Integer(id), value)
  {
    hide Encode;
    hide CheckEntries;
    hide ReadMapHeader;
    hide FindEntry;
    if StrictFieldsVerdict(fields).Ok? {
      var form, items := MapDecoded(IntegersOnly, fields);
      KeyedMapWalk(IntegersOnly, fields, form, items);
      assert FieldValueId(fields, id) == Some(value)
        ==> SendsKey(IntegersOnly, fields, form, items, Integer(id), value);
    }
    if form, items :| SendsKey(IntegersOnly, fields, form, items, Integer(id), value) {
      KeyedMapWalk(IntegersOnly, fields, form, items);
    }
  }

  /** `map_bytes_value` is a lookup of a UTF-8 text key in the finite map the slice encodes,
      over integer and text keys. */
  lemma TextLookupRefinesMap(utf8: bytes -> bool, data: bytes, key: bytes, value: bytes)
    ensures MapBytesValue(utf8, data, key) == Some(value)
       <==> utf8(key) && exists form, items :: SendsKey(TextToo(utf8), data, form, items, Text(key), value)
  {
    hide Encode;
    hide CheckEntries;
    hide ReadMapHeader;
    hide FindEntry;
    var rule := TextToo(utf8);
    if MapBytesValue(utf8, data, key).Some? {
      var form, items := MapDecoded(rule, data);
      KeyedMapWalk(rule, data, form, items);
      assert MapBytesValue(utf8, data, key) == Some(value)
        ==> SendsKey(rule, data, form, items, Text(key), value);
    }
    if form, items :| SendsKey(rule, data, form, items, Text(key), value) {
      KeyedMapWalk(rule, data, form, items);
    }
  }
}
