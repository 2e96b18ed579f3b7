/** The validators and lookups as the code runs them: loops over the entries, keys kept in
    caller scratch or read again from the bytes, and a count of the key comparisons. */
module Validators {
  import opened Bytes
  import opened Walker
  import opened Readers
  import opened FieldMap

  /** Caller-owned workspace of exactly 64 keys. */
  class LxmfFieldScratch {
    const keys: array<int>

    ghost predicate Valid() {
      keys.Length == MAX_FIELDS
    }

    constructor ()
      ensures Valid() && fresh(keys) && forall i :: 0 <= i < keys.Length ==> keys[i] == 0
    {
      keys := new int[MAX_FIELDS](_ => 0);
    }
  }

  /** Pairs among the first `n` entries. */
  function Pairs(n: nat): nat {
    if n == 0 then 0 else Pairs(n - 1) + (n - 1)
  }

  lemma PairsBound(n: nat)
    requires n <= MAX_FIELDS
    ensures Pairs(n) <= 2016
  {
    assert Pairs(64) == 2016 by {
      PairsClosedForm(64);
    }
    PairsMonotone(n, 64);
  }

  lemma {:induction false} PairsClosedForm(n: nat)
    ensures 2 * Pairs(n) == n * n - n
  {
    if n > 0 {
      PairsClosedForm(n - 1);
      assert (n - 1) * (n - 1) == n * n - 2 * n + 1;
    }
  }

  lemma {:induction false} PairsMonotone(m: nat, n: nat)
    requires m <= n
    ensures Pairs(m) <= Pairs(n)
    decreases n
  {
    if m < n {
      PairsMonotone(m, n - 1);
    }
  }

  ghost function IntegerKeys(ids: seq<int>): set<Key> {
    set i | 0 <= i < |ids| :: Integer(ids[i])
  }

  lemma IntegerKeysGrow(ids: seq<int>, id: int)
    ensures IntegerKeys(ids + [id]) == IntegerKeys(ids) + {Integer(id)}
    ensures Integer(id) in IntegerKeys(ids) <==> id in ids
  {
    var all := ids + [id];
    assert all[|ids|] == id;
    forall key | key in IntegerKeys(ids) + {Integer(id)}
      ensures key in IntegerKeys(all)
    {
      if key in IntegerKeys(ids) {
        var i :| 0 <= i < |ids| && key == Integer(ids[i]);
        assert all[i] == ids[i];
      }
    }
    forall key | key in IntegerKeys(all)
      ensures key in IntegerKeys(ids) + {Integer(id)}
    {
      var i :| 0 <= i < |all| && key == Integer(all[i]);
      assert i < |ids| ==> all[i] == ids[i];
    }
  }

  /** With scratch: the answer depends on the slice alone, not on what the scratch held. */
  method ValidateFields(fields: bytes, scratch: LxmfFieldScratch) returns (r: Result<()>, ghost comparisons: nat)
    requires scratch.Valid()
    modifies scratch.keys
    ensures r == FieldsVerdict(fields)
    ensures comparisons <= 2016
  {
    hide SkipValue;
    hide ReadFieldId;
    comparisons := 0;
    var header := ReadMapHeader(fields);
    if header.None? {
      return Ok(()), comparisons;
    }
    var (first, count) := header.value;
    hide ReadMapHeader;
    if count > MAX_FIELDS {
      return Err(TooManyFields), comparisons;
    }
    var pos: nat := first;
    if count > (|fields| - pos) / 2 {
      return Err(MalformedPayload), comparisons;
    }
    ghost var seen: set<Key> := {};
    for index := 0 to count
      invariant pos <= |fields| && seen == IntegerKeys(scratch.keys[..index])
      invariant comparisons <= Pairs(index)
      invariant FieldsVerdict(fields) == CheckEntries(IntegersOnly, fields, pos, count - index, seen)
    {
      PairsBound(index);
      var next := ReadFieldId(fields, pos);
      if next.None? {
        return Err(MalformedPayload), comparisons;
      }
      var (key, afterKey) := next.value;
      comparisons := comparisons + index;
      PairsBound(index + 1);
      IntegerKeysGrow(scratch.keys[..index], key);
      if key in scratch.keys[..index] {
        return Err(DuplicateField), comparisons;
      }
      scratch.keys[index] := key;
      assert scratch.keys[..index + 1] == scratch.keys[..index] + [key];
      seen := seen + {Integer(key)};
      pos :- SkipValue(fields, afterKey, 0);
    }
    PairsBound(count);
    if pos != |fields| {
      return Err(MalformedPayload), comparisons;
    }
    return Ok(()), comparisons;
  }

  // ---- without scratch: the keys before an entry are read again ----

  /** The entries already walked: where each starts, and its key. */
  ghost predicate Walked(rule: KeyRule, data: bytes, first: nat, pos: nat, starts: seq<nat>, keys: seq<Key>) {
    && |starts| == |keys| + 1
    && starts[0] == first
    && starts[|keys|] == pos
    && forall i :: 0 <= i < |keys| ==> EntryAt(rule, data, starts[i], keys[i], starts[i + 1])
  }

  ghost predicate EntryAt(rule: KeyRule, data: bytes, start: nat, key: Key, end: nat) {
    && ReadKey(rule, data, start).Some?
    && ReadKey(rule, data, start).value.0 == key
    && SkipValue(data, ReadKey(rule, data, start).value.1, 0) == Ok(end)
  }

  ghost function KeySet(keys: seq<Key>): set<Key> {
    set key | key in keys
  }

  lemma WalkedGrow(
    rule: KeyRule, data: bytes, first: nat, pos: nat, starts: seq<nat>, keys: seq<Key>, key: Key, end: nat
  )
    requires Walked(rule, data, first, pos, starts, keys) && EntryAt(rule, data, pos, key, end)
    ensures Walked(rule, data, first, end, starts + [end], keys + [key])
    ensures KeySet(keys + [key]) == KeySet(keys) + {key}
  {
    hide EntryAt;
    assert forall i :: 0 <= i < |keys| + 1 ==> (starts + [end])[i] == starts[i];
    assert (keys + [key])[|keys|] == key;
  }

  /** The inner loop: compare `key` with each key before it, read again from the bytes. */
  method RepeatsBefore(
    rule: KeyRule, data: bytes, first: nat, index: nat, key: Key, ghost starts: seq<nat>, ghost keys: seq<Key>
  )
    returns (repeats: bool, ghost comparisons: nat)
    requires |keys| == index && |starts| == index + 1 && Walked(rule, data, first, starts[index], starts, keys)
    ensures repeats <==> key in KeySet(keys)
    ensures comparisons <= index
  {
    hide SkipValue;
    hide ReadKey;
    comparisons := 0;
    var prior := first;
    for i := 0 to index
      invariant prior == starts[i] && comparisons == i
      invariant key !in keys[..i]
    {
      assert EntryAt(rule, data, starts[i], keys[i], starts[i + 1]);
      var (previous, end) := ReadKey(rule, data, prior).value;
      comparisons := comparisons + 1;
      if previous == key {
        return true, comparisons;
      }
      prior := SkipValue(data, end, 0).value;
    }
    return false, comparisons;
  }

  method ValidateFieldsWithoutScratch(fields: bytes) returns (r: Result<()>, ghost comparisons: nat)
    ensures r == StrictFieldsVerdict(fields)
    ensures comparisons <= 2016
  {
    hide SkipValue;
    hide ReadKey;
    comparisons := 0;
    var header := ReadMapHeader(fields);
    if header.None? {
      return Err(MalformedPayload), comparisons;
    }
    var (first, count) := header.value;
    hide ReadMapHeader;
    if count > MAX_FIELDS {
      return Err(TooManyFields), comparisons;
    }
    var pos := first;
    ghost var starts, keys: seq<Key> := [first], [];
    assert KeySet(keys) == {};
    for index := 0 to count
      invariant |keys| == index && Walked(IntegersOnly, fields, first, pos, starts, keys)
      invariant comparisons <= Pairs(index)
      invariant StrictFieldsVerdict(fields)
             == CheckEntries(IntegersOnly, fields, pos, count - index, KeySet(keys))
    {
      PairsBound(index);
      var next := ReadKey(IntegersOnly, fields, pos);
      if next.None? {
        return Err(MalformedPayload), comparisons;
      }
      var (key, afterKey) := next.value;
      var repeats;
      ghost var more;
      repeats, more := RepeatsBefore(IntegersOnly, fields, first, index, key, starts, keys);
      comparisons := comparisons + more;
      PairsBound(index + 1);
      if repeats {
        return Err(DuplicateField), comparisons;
      }
      var end :- SkipValue(fields, afterKey, 0);
      WalkedGrow(IntegersOnly, fields, first, pos, starts, keys, key, end);
      pos, starts, keys := end, starts + [end], keys + [key];
    }
    PairsBound(count);
    if pos != |fields| {
      return Err(MalformedPayload), comparisons;
    }
    return Ok(()), comparisons;
  }

  // ---- lookups ----

  method LookUpField(fields: bytes, id: int) returns (r: Option<bytes>)
    ensures r == FieldValueId(fields, id)
  {
    hide SkipValue;
    hide ReadKey;
    var verdict, _ := ValidateFieldsWithoutScratch(fields);
    if verdict.Err? {
      return None;
    }
    var (pos, count) := ReadMapHeader(fields).value;
    hide ReadMapHeader;
    for i := 0 to count
      invariant FieldValueId(fields, id) == FindEntry(IntegersOnly, fields, pos, count - i, Integer(id))
    {
      var read :- ReadKey(IntegersOnly, fields, pos);
      var (key, afterKey) := read;
      var skipped := SkipValue(fields, afterKey, 0);
      if skipped.Err? {
        return None;
      }
      if key == Integer(id) {
        return Some(fields[afterKey..skipped.value]);
      }
      pos := skipped.value;
    }
    return None;
  }

  /** One pass that both validates every key and remembers the wanted value. */
  method LookUpText(utf8: bytes -> bool, data: bytes, wanted: bytes)
    returns (r: Option<bytes>, ghost comparisons: nat)
    ensures r == MapBytesValue(utf8, data, wanted)
    ensures comparisons <= 2016
  {
    hide SkipValue;
    hide ReadKey;
    comparisons := 0;
    if !utf8(wanted) {
      return None, comparisons;
    }
    var read :- ReadMapHeader(data);
      var (first, count) := read;
    hide ReadMapHeader;
    if count > MAX_FIELDS || count > (|data| - first) / 2 {
      return None, comparisons;
    }
    var rule := TextToo(utf8);
    var pos := first;
    var found: Option<bytes> := None;
    ghost var starts, keys: seq<Key> := [first], [];
    assert KeySet(keys) == {};
    for index := 0 to count
      invariant |keys| == index && Walked(rule, data, first, pos, starts, keys)
      invariant comparisons <= Pairs(index)
      invariant CheckEntries(rule, data, first, count, {}) == CheckEntries(rule, data, pos, count - index, KeySet(keys))
      invariant found.Some? <==> Text(wanted) in KeySet(keys)
      invariant FindEntry(rule, data, first, count, Text(wanted))
             == if found.Some? then found else FindEntry(rule, data, pos, count - index, Text(wanted))
    {
      PairsBound(index);
      var read :- ReadKey(rule, data, pos);
      var (current, afterKey) := read;
      var repeats;
      ghost var more;
      repeats, more := RepeatsBefore(rule, data, first, index, current, starts, keys);
      comparisons := comparisons + more;
      PairsBound(index + 1);
      if repeats {
        return None, comparisons;
      }
      var skipped := SkipValue(data, afterKey, 0);
      if skipped.Err? {
        return None, comparisons;
      }
      if current == Text(wanted) {
        found := Some(data[afterKey..skipped.value]);
      }
      WalkedGrow(rule, data, first, pos, starts, keys, current, skipped.value);
      pos, starts, keys := skipped.value, starts + [skipped.value], keys + [current];
    }
    PairsBound(count);
    if pos != |data| {
      return None, comparisons;
    }
    return found, comparisons;
  }
}
