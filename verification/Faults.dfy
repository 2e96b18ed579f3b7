/** Which error a refused field list or fields element gets: that of its first entry at fault. */
module Faults {
  import opened Bytes
  import opened MessagePack
  import opened Walker
  import opened FieldMap
  import opened FieldSet
  import opened Validators

  // ---- fields on the wire ----

  /** The entries before `at` are in order: readable, complete, and no key twice or among `seen`. */
  ghost predicate InOrder(
    rule: KeyRule, data: bytes, first: nat, at: nat, starts: seq<nat>, keys: seq<Key>, seen: set<Key>
  ) {
    && Walked(rule, data, first, at, starts, keys)
    && Distinct(keys)
    && forall i :: 0 <= i < |keys| ==> keys[i] !in seen
  }

  /** What is wrong at `at`, where `left` entries should follow and `seen` keys came before. */
  ghost predicate FaultAt(rule: KeyRule, data: bytes, at: nat, left: nat, seen: set<Key>, error: LxmfError) {
    if left == 0 then
      at != |data| && error == MalformedPayload
    else if ReadKey(rule, data, at).None? then
      error == MalformedPayload
    else
      var (key, after) := ReadKey(rule, data, at).value;
      if key in seen then error == DuplicateField else SkipValue(data, after, 0).Err? && error == MalformedPayload
  }

  lemma EntryInFront(
    rule: KeyRule, data: bytes, first: nat, key: Key, next: nat, at: nat, starts: seq<nat>, keys: seq<Key>, seen: set<Key>
  )
    requires EntryAt(rule, data, first, key, next) && key !in seen
    requires InOrder(rule, data, next, at, starts, keys, seen + {key})
    ensures InOrder(rule, data, first, at, [first] + starts, [key] + keys, seen)
    ensures seen + KeySet([key] + keys) == seen + {key} + KeySet(keys)
  {
    WalkedInFront(rule, data, first, key, next, at, starts, keys);
    KeyInFront(key, keys, seen);
    hide Walked;
    hide EntryAt;
    hide Distinct;
  }

  lemma KeyInFront(key: Key, keys: seq<Key>, seen: set<Key>)
    requires key !in seen && Distinct(keys) && forall i :: 0 <= i < |keys| ==> keys[i] !in seen + {key}
    ensures Distinct([key] + keys) && forall i :: 0 <= i < |keys| + 1 ==> ([key] + keys)[i] !in seen
    ensures seen + KeySet([key] + keys) == seen + {key} + KeySet(keys)
  {
    var all := [key] + keys;
    assert all[0] == key;
    assert forall i :: 1 <= i < |all| ==> all[i] == keys[i - 1];
    assert KeySet(all) == {key} + KeySet(keys) by {
      assert forall i :: 0 <= i < |keys| ==> all[i + 1] == keys[i];
    }
  }

  lemma WalkedInFront(
    rule: KeyRule, data: bytes, first: nat, key: Key, next: nat, at: nat, starts: seq<nat>, keys: seq<Key>
  )
    requires EntryAt(rule, data, first, key, next) && Walked(rule, data, next, at, starts, keys)
    ensures Walked(rule, data, first, at, [first] + starts, [key] + keys)
  {
    hide EntryAt;
    var from, all := [first] + starts, [key] + keys;
    forall i | 0 <= i < |all|
      ensures EntryAt(rule, data, from[i], all[i], from[i + 1])
    {
      if i > 0 {
        assert EntryAt(rule, data, starts[i - 1], keys[i - 1], starts[i]);
      }
    }
  }

  /** A refused entry list has a first entry at fault, which decides the error. */
  lemma {:induction false} FirstFault(rule: KeyRule, data: bytes, first: nat, count: nat, seen: set<Key>)
    returns (at: nat, starts: seq<nat>, keys: seq<Key>)
    requires CheckEntries(rule, data, first, count, seen).Err?
    ensures |keys| <= count && InOrder(rule, data, first, at, starts, keys, seen)
    ensures FaultAt(rule, data, at, count - |keys|, seen + KeySet(keys),
                    CheckEntries(rule, data, first, count, seen).error)
    decreases count
  {
    hide SkipValue;
    hide ReadKey;
    at, starts, keys := first, [first], [];
    assert seen + KeySet([]) == seen;
    if count > 0 && ReadKey(rule, data, first).Some? {
      var (key, after) := ReadKey(rule, data, first).value;
      if key !in seen && SkipValue(data, after, 0).Ok? {
        var next := SkipValue(data, after, 0).value;
        at, starts, keys := FirstFault(rule, data, next, count - 1, seen + {key});
        EntryInFront(rule, data, first, key, next, at, starts, keys, seen);
        starts, keys := [first] + starts, [key] + keys;
      }
    }
  }

  /** Entries in order are walked past. */
  lemma {:induction false} PastInOrder(
    rule: KeyRule, data: bytes, first: nat, count: nat, seen: set<Key>, at: nat, starts: seq<nat>, keys: seq<Key>
  )
    requires |keys| <= count && InOrder(rule, data, first, at, starts, keys, seen)
    ensures CheckEntries(rule, data, first, count, seen)
         == CheckEntries(rule, data, at, count - |keys|, seen + KeySet(keys))
    decreases count
  {
    hide SkipValue;
    hide ReadKey;
    if keys == [] {
      assert seen + KeySet(keys) == seen;
    } else {
      assert EntryAt(rule, data, starts[0], keys[0], starts[1]);
      assert InOrder(rule, data, starts[1], at, starts[1..], keys[1..], seen + {keys[0]});
      PastInOrder(rule, data, starts[1], count - 1, seen + {keys[0]}, at, starts[1..], keys[1..]);
      assert keys == [keys[0]] + keys[1..];
      assert seen + {keys[0]} + KeySet(keys[1..]) == seen + KeySet(keys);
    }
  }

  /** The first fault of an entry list of `count` entries from `first` on is `error`. */
  ghost predicate FirstFaultIs(rule: KeyRule, data: bytes, first: nat, count: nat, error: LxmfError) {
    exists at, starts, keys ::
      && |keys| <= count && InOrder(rule, data, first, at, starts, keys, {})
      && FaultAt(rule, data, at, count - |keys|, KeySet(keys), error)
  }

  lemma EntriesRefused(rule: KeyRule, data: bytes, first: nat, count: nat, error: LxmfError)
    ensures CheckEntries(rule, data, first, count, {}) == Err(error) <==> FirstFaultIs(rule, data, first, count, error)
  {
    hide SkipValue;
    hide ReadKey;
    hide InOrder;
    if CheckEntries(rule, data, first, count, {}) == Err(error) {
      var at, starts, keys := FirstFault(rule, data, first, count, {});
      assert {} + KeySet(keys) == KeySet(keys);
    }
    if FirstFaultIs(rule, data, first, count, error) {
      var at, starts, keys :|
        && |keys| <= count && InOrder(rule, data, first, at, starts, keys, {})
        && FaultAt(rule, data, at, count - |keys|, KeySet(keys), error);
      PastInOrder(rule, data, first, count, {}, at, starts, keys);
      assert {} + KeySet(keys) == KeySet(keys);
    }
  }

  /** The refusals of the two validators: more than 64 entries, in one of them more than could
      stand in the slice, and then the first entry at fault. */
  lemma ValidatorRefusals(fields: bytes, error: LxmfError)
    ensures FieldsVerdict(fields) == Err(error)
       <==> && ReadMapHeader(fields).Some?
            && var (first, count) := ReadMapHeader(fields).value;
               if count > 64 then error == TooManyFields
               else if 2 * count > |fields| - first then error == MalformedPayload
               else FirstFaultIs(IntegersOnly, fields, first, count, error)
    ensures StrictFieldsVerdict(fields) == Err(error)
       <==> if ReadMapHeader(fields).None? then error == MalformedPayload
            else
              var (first, count) := ReadMapHeader(fields).value;
              if count > 64 then error == TooManyFields else FirstFaultIs(IntegersOnly, fields, first, count, error)
  {
    if ReadMapHeader(fields).Some? {
      var (first, count) := ReadMapHeader(fields).value;
      EntriesRefused(IntegersOnly, fields, first, count, error);
    }
    hide ReadMapHeader;
    hide CheckEntries;
    hide FirstFaultIs;
  }

  // ---- fields to be written ----

  /** A value is complete just when it is the encoding of one tree at most seven levels deep. */
  lemma CompleteIsGrammar(value: bytes)
    ensures Complete(value) <==> exists v :: WellFormed(v) && Encode(v) == value && Nesting(v) <= 7
  {
    hide SkipValue;
    hide Encode;
    hide WellFormed;
    hide Nesting;
    assert value[0..|value|] == value;
    if Complete(value) {
      var v := SkipSound(value, 0, 1);
      assert WellFormed(v) && Encode(v) == value && Nesting(v) <= 7;
    }
    if v :| WellFormed(v) && Encode(v) == value && Nesting(v) <= 7 {
      SkipEncoded(value, 0, 1, v);
    }
  }

  /** Everything before entry `i` is admissible, and `error` is what is wrong with that entry. */
  ghost predicate EntryFault(fields: seq<EncodedField>, i: nat, error: LxmfError)
    requires i < |fields|
  {
    && DistinctIds(fields[..i])
    && (forall j :: 0 <= j < i ==> Complete(fields[j].value))
    && if exists j :: 0 <= j < i && fields[j].id == fields[i].id then error == DuplicateField
       else !Complete(fields[i].value) && error == MalformedPayload
  }

  lemma {:induction false} FieldsRefused(fields: seq<EncodedField>, n: nat, error: LxmfError)
    requires n <= |fields| && DistinctIds(fields[..n]) && forall j :: 0 <= j < n ==> Complete(fields[j].value)
    ensures CheckFields(fields[n..], IdSet(fields[..n])) == Err(error)
       <==> exists i :: n <= i < |fields| && EntryFault(fields, i, error)
    decreases |fields| - n
  {
    hide Complete;
    if n < |fields| {
      IdSetGrow(fields, n);
      assert fields[n..][1..] == fields[n + 1..];
      assert fields[n].id in IdSet(fields[..n]) <==> exists j :: 0 <= j < n && fields[j].id == fields[n].id by {
        assert forall j :: 0 <= j < n ==> fields[..n][j] == fields[j];
      }
      if fields[n].id in IdSet(fields[..n]) || !Complete(fields[n].value) {
        OnlyFault(fields, n);
        assert EntryFault(fields, n, error) <==> CheckFields(fields[n..], IdSet(fields[..n])) == Err(error);
      } else {
        FieldsRefused(fields, n + 1, error);
      }
    }
  }

  /** Behind a faulty entry there is no other first fault. */
  lemma OnlyFault(fields: seq<EncodedField>, n: nat)
    requires n < |fields|
    requires (exists j :: 0 <= j < n && fields[j].id == fields[n].id) || !Complete(fields[n].value)
    ensures forall i, error :: n < i < |fields| ==> !EntryFault(fields, i, error)
  {
    hide Complete;
    forall i, error | n < i < |fields|
      ensures !EntryFault(fields, i, error)
    {
      if j :| 0 <= j < n && fields[j].id == fields[n].id {
        assert fields[..i][j] == fields[j] && fields[..i][n] == fields[n];
      }
    }
  }

  /** Admission is refused with the fault of the first entry that has one. */
  lemma AdmissionRefusals(fields: seq<EncodedField>, error: LxmfError)
    ensures Admit(fields) == Err(error)
       <==> if |fields| > 64 then error == TooManyFields
            else exists i :: 0 <= i < |fields| && EntryFault(fields, i, error)
  {
    hide Complete;
    hide EntryFault;
    assert fields[0..] == fields && IdSet(fields[..0]) == {};
    FieldsRefused(fields, 0, error);
  }
}
