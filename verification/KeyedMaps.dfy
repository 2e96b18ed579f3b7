/** The maps that validators accept and lookups search, read off the items of their trees. */
module KeyedMaps {
  import opened Bytes
  import opened MessagePack
  import opened Walker
  import opened Readers
  import opened FieldMap

  /** `v` is the text `t` as a str; a bin is never a text key. */
  predicate IsText(utf8: bytes -> bool, v: Value, t: bytes) {
    v.Str? && v.body == t && utf8(t)
  }

  /** `v` is the integer `n`, in whatever encoding. */
  predicate IsInteger(v: Value, n: int) {
    NodeOk(v) && IntOf(v) == Some(n)
  }

  /** An integer, or under `rule` a UTF-8 text. */
  ghost predicate AllowedKey(rule: KeyRule, v: Value) {
    (exists n :: IsInteger(v, n)) || (rule.TextToo? && v.Str? && rule.utf8(v.body))
  }

  /** The same integer, or the same text. */
  ghost predicate SameKey(a: Value, b: Value) {
    (exists n :: IsInteger(a, n) && IsInteger(b, n)) || (a.Str? && b.Str? && a.body == b.body)
  }

  /** Items come in pairs of a key and a value; keys are allowed and no two the same; values fit
      the nesting limit. */
  ghost predicate KeyedItems(rule: KeyRule, items: seq<Value>) {
    && |items| % 2 == 0
    && (forall i :: 0 <= i < |items| / 2 ==> AllowedKey(rule, items[2 * i]))
    && (forall i, j :: 0 <= i < j < |items| / 2 ==> !SameKey(items[2 * i], items[2 * j]))
    && (forall i :: 0 <= i < |items| / 2 ==> Nesting(items[2 * i + 1]) <= 8)
  }

  lemma {:induction false} EntryAtIndex(rule: KeyRule, items: seq<Value>, i: nat)
    requires AllWellFormed(items) && i < |items| / 2
    ensures |EntryKeys(rule, items)| == |EntryValues(items)| == |items| / 2
    ensures WellFormed(items[2 * i]) && WellFormed(items[2 * i + 1])
    ensures EntryKeys(rule, items)[i] == KeyOf(rule, items[2 * i]) && EntryValues(items)[i] == items[2 * i + 1]
  {
    hide KeyOf;
    hide WellFormed;
    EntryCounts(rule, items);
    AllWellFormedAt(items, 2 * i);
    AllWellFormedAt(items, 2 * i + 1);
    FirstPair(items);
    if i > 0 {
      EntryAtIndex(rule, items[2..], i - 1);
      assert items[2..][2 * (i - 1)] == items[2 * i] && items[2..][2 * (i - 1) + 1] == items[2 * i + 1];
    }
  }

  lemma KeyIs(rule: KeyRule, v: Value)
    requires WellFormed(v)
    ensures forall n :: KeyOf(rule, v) == Some(Integer(n)) <==> IsInteger(v, n)
    ensures forall t :: KeyOf(rule, v) == Some(Text(t)) <==> rule.TextToo? && IsText(rule.utf8, v, t)
    ensures KeyOf(rule, v).Some? <==> AllowedKey(rule, v)
  {
    if KeyOf(rule, v).Some? && KeyOf(rule, v).value.Integer? {
      assert IsInteger(v, KeyOf(rule, v).value.id);
    }
  }

  lemma SameKeyIs(rule: KeyRule, a: Value, b: Value)
    requires WellFormed(a) && WellFormed(b) && KeyOf(rule, a).Some? && KeyOf(rule, b).Some?
    ensures KeyOf(rule, a) == KeyOf(rule, b) <==> SameKey(a, b)
  {
    KeyIs(rule, a);
    KeyIs(rule, b);
    if KeyOf(rule, a).value.Integer? {
      assert IsInteger(a, KeyOf(rule, a).value.id);
    }
    if KeyOf(rule, b).value.Integer? {
      assert IsInteger(b, KeyOf(rule, b).value.id);
    }
  }

  /** An entry list is in order just when its items are keyed. */
  lemma EntriesOkIsKeyed(rule: KeyRule, items: seq<Value>)
    requires AllWellFormed(items)
    ensures EntriesOk(rule, items, {}) <==> KeyedItems(rule, items)
  {
    hide KeyOf;
    hide WellFormed;
    hide Nesting;
    hide EntryKeys;
    hide EntryValues;
    hide EntriesOk;
    hide IsInteger;
    EntriesOkMeaning(rule, items, {});
    EntryCounts(rule, items);
    forall i | 0 <= i < |items| / 2
      ensures WellFormed(items[2 * i]) && EntryKeys(rule, items)[i] == KeyOf(rule, items[2 * i])
      ensures EntryValues(items)[i] == items[2 * i + 1]
    {
      EntryAtIndex(rule, items, i);
    }
    ShallowAt(EntryValues(items));
    if EntriesOk(rule, items, {}) {
      forall i | 0 <= i < |items| / 2
        ensures Nesting(items[2 * i + 1]) <= 8
      {
        assert Nesting(EntryValues(items)[i]) <= 8;
      }
      KeyedFromKeys(rule, items, EntryKeys(rule, items));
    }
    if KeyedItems(rule, items) {
      KeysFromKeyed(rule, items, EntryKeys(rule, items));
    }
  }

  lemma ShallowAt(values: seq<Value>)
    ensures Shallow(values) <==> forall i :: 0 <= i < |values| ==> Nesting(values[i]) <= 8
  {
    if forall i :: 0 <= i < |values| ==> Nesting(values[i]) <= 8 {
      forall v | v in values
        ensures Nesting(v) <= 8
      {
        var i :| 0 <= i < |values| && values[i] == v;
      }
    }
    hide Nesting;
  }

  ghost predicate KeysAt(rule: KeyRule, items: seq<Value>, keys: seq<Option<Key>>) {
    && |keys| == |items| / 2
    && forall i :: 0 <= i < |keys| ==> WellFormed(items[2 * i]) && keys[i] == KeyOf(rule, items[2 * i])
  }

  lemma KeyedFromKeys(rule: KeyRule, items: seq<Value>, keys: seq<Option<Key>>)
    requires KeysAt(rule, items, keys) && FreshKeys(keys, {}) && |items| % 2 == 0
    requires forall i :: 0 <= i < |items| / 2 ==> Nesting(items[2 * i + 1]) <= 8
    ensures KeyedItems(rule, items)
  {
    hide KeyOf;
    hide WellFormed;
    hide Nesting;
    hide IsInteger;
    hide AllowedKey;
    hide SameKey;
    forall i | 0 <= i < |items| / 2
      ensures AllowedKey(rule, items[2 * i])
    {
      assert keys[i].Some?;
      KeyIs(rule, items[2 * i]);
    }
    forall i, j | 0 <= i < j < |items| / 2
      ensures !SameKey(items[2 * i], items[2 * j])
    {
      assert keys[i] != keys[j];
      SameKeyIs(rule, items[2 * i], items[2 * j]);
    }
  }

  lemma KeysFromKeyed(rule: KeyRule, items: seq<Value>, keys: seq<Option<Key>>)
    requires KeysAt(rule, items, keys) && KeyedItems(rule, items)
    ensures FreshKeys(keys, {})
  {
    hide KeyOf;
    hide WellFormed;
    hide Nesting;
    hide IsInteger;
    forall i | 0 <= i < |keys|
      ensures keys[i].Some?
    {
      KeyIs(rule, items[2 * i]);
    }
    forall i, j | 0 <= i < j < |keys|
      ensures keys[i] != keys[j]
    {
      SameKeyIs(rule, items[2 * i], items[2 * j]);
    }
  }

  /** `fields` is the encoding of a map of at most 64 such entries, and entry `i` of it has `value`. */
  ghost predicate MapHolds(rule: KeyRule, data: bytes, form: Form, items: seq<Value>, i: nat, value: bytes) {
    && i < |items| / 2 && |items| <= 2 * 64
    && WellFormed(Map(form, items)) && Encode(Map(form, items)) == data
    && KeyedItems(rule, items)
    && WellFormed(items[2 * i + 1]) && Encode(items[2 * i + 1]) == value
  }

  lemma SendsKeyAt(rule: KeyRule, data: bytes, form: Form, items: seq<Value>, key: Key, value: bytes)
    ensures SendsKey(rule, data, form, items, key, value)
       <==> exists i :: 0 <= i < |items| / 2 && MapHolds(rule, data, form, items, i, value)
                        && WellFormed(items[2 * i]) && KeyOf(rule, items[2 * i]) == Some(key)
  {
    hide KeyOf;
    hide Encode;
    hide Nesting;
    hide KeyedItems;
    hide AsMap;
    hide EntriesOk;
    if WellFormed(Map(form, items)) && |items| % 2 == 0 {
      EntriesOkIsKeyed(rule, items);
      if EntriesOk(rule, items, {}) {
        forall i | 0 <= i < |items| / 2
          ensures WellFormed(items[2 * i]) && WellFormed(items[2 * i + 1]) && KeyOf(rule, items[2 * i]).Some?
          ensures KeyOf(rule, items[2 * i]).value in AsMap(rule, items, {})
          ensures AsMap(rule, items, {})[KeyOf(rule, items[2 * i]).value] == Encode(items[2 * i + 1])
        {
          EntryAtIndex(rule, items, i);
          AsMapAt(rule, items, {}, i);
        }
        if key in AsMap(rule, items, {}) {
          AsMapOnly(rule, items, {}, key);
          var i :| 0 <= i < |EntryKeys(rule, items)| && EntryKeys(rule, items)[i] == Some(key);
          EntryCounts(rule, items);
          EntryAtIndex(rule, items, i);
        }
      }
    }
  }

  /** `field_value_id` finds a value just when the slice is a map of at most 64 distinct integer
      keys and some entry of it has that integer, in any encoding, for key and that value. */
  lemma FieldLookupMeaning(fields: bytes, id: int, value: bytes)
    ensures FieldValueId(fields, id) == Some(value)
       <==> exists form, items, i ::
              0 <= i < |items| / 2 && MapHolds(IntegersOnly, fields, form, items, i, value) && IsInteger(items[2 * i], id)
  {
    hide FieldValueId;
    hide SendsKey;
    hide MapHolds;
    hide KeyOf;
    hide IsInteger;
    FieldLookupRefinesMap(fields, id, value);
    if form, items :| SendsKey(IntegersOnly, fields, form, items, Integer(id), value) {
      SendsKeyAt(IntegersOnly, fields, form, items, Integer(id), value);
      var i :| 0 <= i < |items| / 2 && MapHolds(IntegersOnly, fields, form, items, i, value)
               && WellFormed(items[2 * i]) && KeyOf(IntegersOnly, items[2 * i]) == Some(Integer(id));
      KeyIs(IntegersOnly, items[2 * i]);
    }
    if form, items, i :| 0 <= i < |items| / 2 && MapHolds(IntegersOnly, fields, form, items, i, value) && IsInteger(items[2 * i], id) {
      HeldKey(IntegersOnly, fields, form, items, i, value);
      KeyIs(IntegersOnly, items[2 * i]);
      SendsKeyAt(IntegersOnly, fields, form, items, Integer(id), value);
    }
  }

  lemma HeldKey(rule: KeyRule, data: bytes, form: Form, items: seq<Value>, i: nat, value: bytes)
    requires MapHolds(rule, data, form, items, i, value)
    ensures WellFormed(items[2 * i])
  {
    hide Encode;
    hide KeyedItems;
    AllWellFormedAt(items, 2 * i);
  }

  /** `map_bytes_value` finds a value just when the wanted key is UTF-8, the slice is a map of at
      most 64 distinct integer or UTF-8 keys, and some entry of it has that text, as a str, for key
      and that value. */
  lemma TextLookupMeaning(utf8: bytes -> bool, data: bytes, key: bytes, value: bytes)
    ensures MapBytesValue(utf8, data, key) == Some(value)
       <==> exists form, items, i ::
              0 <= i < |items| / 2 && MapHolds(TextToo(utf8), data, form, items, i, value) && IsText(utf8, items[2 * i], key)
  {
    hide MapBytesValue;
    hide SendsKey;
    hide MapHolds;
    hide KeyOf;
    var rule := TextToo(utf8);
    TextLookupRefinesMap(utf8, data, key, value);
    if utf8(key) {
      if form, items :| SendsKey(rule, data, form, items, Text(key), value) {
        SendsKeyAt(rule, data, form, items, Text(key), value);
        var i :| 0 <= i < |items| / 2 && MapHolds(rule, data, form, items, i, value)
                 && WellFormed(items[2 * i]) && KeyOf(rule, items[2 * i]) == Some(Text(key));
        KeyIs(rule, items[2 * i]);
        assert IsText(utf8, items[2 * i], key);
      }
    }
    if form, items, i :| 0 <= i < |items| / 2 && MapHolds(rule, data, form, items, i, value) && IsText(utf8, items[2 * i], key) {
      HeldKey(rule, data, form, items, i, value);
      KeyIs(rule, items[2 * i]);
      SendsKeyAt(rule, data, form, items, Text(key), value);
    }
  }

  /** Both validators accept a slice with a readable map header just when it is a map of at most
      64 entries with distinct integer keys. */
  lemma ValidatorsMeaning(fields: bytes)
    requires ReadMapHeader(fields).Some?
    ensures FieldsVerdict(fields).Ok? <==> StrictFieldsVerdict(fields).Ok?
    ensures StrictFieldsVerdict(fields).Ok?
       <==> exists form, items ::
              && |items| <= 2 * 64 && WellFormed(Map(form, items)) && Encode(Map(form, items)) == fields
              && KeyedItems(IntegersOnly, items)
  {
    hide Encode;
    hide KeyedItems;
    hide EntriesOk;
    hide ReadMapHeader;
    hide FieldsVerdict;
    hide StrictFieldsVerdict;
    ValidatorsAgree(fields);
    if form, items :| IsKeyedMap(IntegersOnly, fields, form, items) {
      EntriesOkIsKeyed(IntegersOnly, items);
    }
    if form, items :| && |items| <= 2 * 64 && WellFormed(Map(form, items)) && Encode(Map(form, items)) == fields
                      && KeyedItems(IntegersOnly, items) {
      EntriesOkIsKeyed(IntegersOnly, items);
      assert IsKeyedMap(IntegersOnly, fields, form, items);
    }
  }
}
