/** Caller-encoded outer fields: admission, the 256-bit set of ids, and the canonical order. */
module FieldSet {
  import opened Bytes
  import opened Walker
  import opened FieldMap

  /** An id and the encoding of its value. */
  datatype EncodedField = EncodedField(id: byte, value: bytes)

  // ---- the bitset ----

  type Bitset = s: seq<bv8> | |s| == 32 witness seq(32, _ => 0)

  /** `1 << k` in a byte. */
  function Mask(k: nat): bv8
    requires k < 8
  {
    if k == 0 then 1 else if k == 1 then 2 else if k == 2 then 4 else if k == 3 then 8
    else if k == 4 then 16 else if k == 5 then 32 else if k == 6 then 64 else 128
  }

  predicate Has(present: Bitset, id: byte) {
    present[id / 8] & Mask(id % 8) != 0
  }

  lemma MaskBit(x: bv8, j: nat, k: nat)
    requires j < 8 && k < 8
    ensures (x | Mask(k)) & Mask(j) != 0 <==> j == k || x & Mask(j) != 0
  {
  }

  function SetBit(present: Bitset, id: byte): Bitset {
    present[id / 8 := present[id / 8] | Mask(id % 8)]
  }

  lemma SetBitHas(present: Bitset, id: byte, other: byte)
    ensures Has(SetBit(present, id), other) <==> other == id || Has(present, other)
  {
    if other / 8 == id / 8 {
      MaskBit(present[id / 8], other % 8, id % 8);
    }
    hide Mask;
  }

  ghost function IdSet(fields: seq<EncodedField>): set<byte> {
    set i | 0 <= i < |fields| :: fields[i].id
  }

  /** `present` is the set of the ids of `fields`. */
  ghost predicate IdsOf(present: Bitset, fields: seq<EncodedField>) {
    forall id: byte :: Has(present, id) <==> id in IdSet(fields)
  }

  // ---- admission ----

  /** A value must be exactly one complete MessagePack value, one level down. */
  predicate Complete(value: bytes) {
    SkipValue(value, 0, 1) == Ok(|value|)
  }

  function CheckFields(fields: seq<EncodedField>, seen: set<byte>): Result<()> {
    if fields == [] then Ok(())
    else if fields[0].id in seen then Err(DuplicateField)
    else if !Complete(fields[0].value) then Err(MalformedPayload)
    else CheckFields(fields[1..], seen + {fields[0].id})
  }

  function Admit(fields: seq<EncodedField>): Result<()> {
    if |fields| > MAX_FIELDS then Err(TooManyFields) else CheckFields(fields, {})
  }

  ghost predicate DistinctIds(fields: seq<EncodedField>) {
    forall i, j :: 0 <= i < j < |fields| ==> fields[i].id != fields[j].id
  }

  /** The declarative reading of admission. */
  ghost predicate Admissible(fields: seq<EncodedField>) {
    && |fields| <= MAX_FIELDS
    && DistinctIds(fields)
    && forall i :: 0 <= i < |fields| ==> Complete(fields[i].value)
  }

  lemma {:induction false} CheckFieldsMeaning(fields: seq<EncodedField>, seen: set<byte>)
    ensures CheckFields(fields, seen).Ok?
       <==> && DistinctIds(fields)
            && forall i :: 0 <= i < |fields| ==> fields[i].id !in seen && Complete(fields[i].value)
  {
    hide Complete;
    if fields != [] {
      var head, tail := fields[0], fields[1..];
      CheckFieldsMeaning(tail, seen + {head.id});
      assert forall i :: 1 <= i < |fields| ==> fields[i] == tail[i - 1];
      assert forall i :: 0 <= i < |tail| ==> tail[i] == fields[i + 1];
    }
  }

  lemma AdmitMeaning(fields: seq<EncodedField>)
    ensures Admit(fields).Ok? <==> Admissible(fields)
  {
    CheckFieldsMeaning(fields, {});
    hide Complete;
  }

  /** `encoded_field_set`. */
  method EncodedFieldSet(fields: seq<EncodedField>) returns (r: Result<Bitset>)
    ensures match r case Ok(present) => Admit(fields).Ok? && IdsOf(present, fields)
                    case Err(error) => Admit(fields) == Err(error)
  {
    hide SkipValue;
    hide Has;
    if |fields| > MAX_FIELDS {
      return Err(TooManyFields);
    }
    var present: Bitset := seq(32, _ => 0);
    ghost var seen: set<byte> := {};
    EmptyHas(present);
    assert IdSet(fields[..0]) == {};
    for i := 0 to |fields|
      invariant seen == IdSet(fields[..i]) && IdsOf(present, fields[..i])
      invariant CheckFields(fields, {}) == CheckFields(fields[i..], seen)
    {
      var (id, value) := (fields[i].id, fields[i].value);
      if Has(present, id) {
        return Err(DuplicateField);
      }
      forall other: byte
        ensures Has(SetBit(present, id), other) <==> other == id || Has(present, other)
      {
        SetBitHas(present, id, other);
      }
      present := SetBit(present, id);
      var end :- SkipValue(value, 0, 1);
      if end != |value| {
        return Err(MalformedPayload);
      }
      assert fields[i..][1..] == fields[i + 1..];
      IdSetGrow(fields, i);
      seen := seen + {id};
    }
    assert fields[..|fields|] == fields;
    return Ok(present);
  }

  lemma EmptyHas(present: Bitset)
    requires forall i :: 0 <= i < 32 ==> present[i] == 0
    ensures forall id: byte :: !Has(present, id)
  {
  }

  lemma IdSetGrow(fields: seq<EncodedField>, i: nat)
    requires i < |fields|
    ensures IdSet(fields[..i + 1]) == IdSet(fields[..i]) + {fields[i].id}
  {
    var before, after := fields[..i], fields[..i + 1];
    assert after[i] == fields[i];
    forall id | id in IdSet(before)
      ensures id in IdSet(after)
    {
      var k :| 0 <= k < |before| && before[k].id == id;
      assert after[k] == before[k];
    }
    forall id | id in IdSet(after)
      ensures id in IdSet(before) + {fields[i].id}
    {
      var k :| 0 <= k < |after| && after[k].id == id;
      assert k < i ==> before[k] == after[k];
    }
  }

  // ---- emission ----

  /** An id as a minimal unsigned integer. */
  function KeyBytes(id: byte): bytes {
    if id <= 0x7f then [id] else [0xcc, id]
  }

  /** The values given for one id, in the order given. */
  function ValuesOf(fields: seq<EncodedField>, id: byte): bytes {
    if fields == [] then
      []
    else
      (if fields[0].id == id then fields[0].value else []) + ValuesOf(fields[1..], id)
  }

  function EmitAt(fields: seq<EncodedField>, present: Bitset, id: byte): bytes {
    if Has(present, id) then KeyBytes(id) + ValuesOf(fields, id) else []
  }

  /** What the nested loops write for the ids from `id` on. */
  function EmitFrom(fields: seq<EncodedField>, present: Bitset, id: nat): bytes
    requires id <= 256
    decreases 256 - id
  {
    if id == 256 then [] else EmitAt(fields, present, id) + EmitFrom(fields, present, id + 1)
  }

  // ---- the canonical order ----

  function EntryBytes(fields: seq<EncodedField>): bytes {
    if fields == [] then [] else KeyBytes(fields[0].id) + fields[0].value + EntryBytes(fields[1..])
  }

  function Select(fields: seq<EncodedField>, id: nat): seq<EncodedField> {
    if fields == [] then
      []
    else
      (if fields[0].id == id then [fields[0]] else []) + Select(fields[1..], id)
  }

  /** The fields with ids from `id` on, id by id. */
  function Ascending(fields: seq<EncodedField>, id: nat): seq<EncodedField>
    requires id <= 256
    decreases 256 - id
  {
    if id == 256 then [] else Select(fields, id) + Ascending(fields, id + 1)
  }

  function Canonical(fields: seq<EncodedField>): seq<EncodedField> {
    Ascending(fields, 0)
  }

  ghost predicate StrictlyAscending(fields: seq<EncodedField>) {
    forall i, j :: 0 <= i < j < |fields| ==> fields[i].id < fields[j].id
  }

  /** With distinct ids, an id selects at most its one entry. */
  lemma {:induction false} SelectAt(fields: seq<EncodedField>, id: nat, i: nat)
    requires i < |fields| && DistinctIds(fields) && fields[i].id == id
    ensures Select(fields, id) == [fields[i]]
    ensures id < 256 ==> ValuesOf(fields, id) == fields[i].value
  {
    var tail := fields[1..];
    assert forall k :: 0 <= k < |tail| ==> tail[k] == fields[k + 1];
    if i == 0 {
      SelectNone(tail, id);
    } else {
      SelectAt(tail, id, i - 1);
      assert fields[0].id != fields[i].id;
    }
  }

  lemma {:induction false} SelectNone(fields: seq<EncodedField>, id: nat)
    requires forall i :: 0 <= i < |fields| ==> fields[i].id != id
    ensures Select(fields, id) == []
    ensures id < 256 ==> ValuesOf(fields, id) == []
  {
    if fields != [] {
      SelectNone(fields[1..], id);
    }
  }

  lemma SelectMembers(fields: seq<EncodedField>, id: nat)
    requires DistinctIds(fields)
    ensures |Select(fields, id)| <= 1
    ensures forall f :: f in Select(fields, id) <==> f in fields && f.id == id
  {
    if i :| 0 <= i < |fields| && fields[i].id == id {
      SelectAt(fields, id, i);
    } else {
      SelectNone(fields, id);
    }
  }

  /** The members of the ascending list are the fields with ids from `id` on, each once. */
  lemma {:induction false} AscendingMembers(fields: seq<EncodedField>, id: nat)
    requires id <= 256 && DistinctIds(fields)
    ensures forall f :: f in Ascending(fields, id) <==> f in fields && f.id >= id
    ensures StrictlyAscending(Ascending(fields, id))
    decreases 256 - id
  {
    hide Select;
    hide DistinctIds;
    if id < 256 {
      AscendingMembers(fields, id + 1);
      SelectMembers(fields, id);
      var here, rest := Select(fields, id), Ascending(fields, id + 1);
      assert forall k :: 0 <= k < |here| ==> here[k] in here;
      assert forall k :: 0 <= k < |rest| ==> rest[k] in rest;
    }
  }

  lemma EntryBytesConcat(f: EncodedField, rest: seq<EncodedField>)
    ensures EntryBytes([f] + rest) == KeyBytes(f.id) + f.value + EntryBytes(rest)
  {
    assert ([f] + rest)[1..] == rest;
  }

  /** The nested loops write the ascending list: each entry once, in ascending id order. */
  lemma {:induction false} EmitIsAscending(fields: seq<EncodedField>, present: Bitset, id: nat)
    requires id <= 256 && DistinctIds(fields) && IdsOf(present, fields)
    ensures EmitFrom(fields, present, id) == EntryBytes(Ascending(fields, id))
    decreases 256 - id
  {
    hide Select;
    hide ValuesOf;
    hide Has;
    if id < 256 {
      EmitIsAscending(fields, present, id + 1);
      var rest := Ascending(fields, id + 1);
      if i :| 0 <= i < |fields| && fields[i].id == id {
        SelectAt(fields, id, i);
        EntryBytesConcat(fields[i], rest);
        assert fields[i].id in IdSet(fields);
      } else {
        SelectNone(fields, id);
        assert [] + rest == rest;
      }
    }
  }

  // ---- the canonical list is the given list, sorted ----

  lemma {:induction false} CountDistinct(fields: seq<EncodedField>, f: EncodedField)
    requires DistinctIds(fields)
    ensures multiset(fields)[f] == if f in fields then 1 else 0
  {
    if fields != [] {
      var tail := fields[1..];
      assert fields == [fields[0]] + tail;
      assert forall k :: 0 <= k < |tail| ==> tail[k] == fields[k + 1];
      CountDistinct(tail, f);
    }
  }

  lemma AscendingIsDistinct(fields: seq<EncodedField>)
    requires StrictlyAscending(fields)
    ensures DistinctIds(fields)
  {
  }

  lemma CanonicalIsPermutation(fields: seq<EncodedField>)
    requires DistinctIds(fields)
    ensures StrictlyAscending(Canonical(fields))
    ensures multiset(Canonical(fields)) == multiset(fields) && |Canonical(fields)| == |fields|
  {
    hide Ascending;
    hide DistinctIds;
    hide StrictlyAscending;
    var sorted := Canonical(fields);
    AscendingMembers(fields, 0);
    AscendingIsDistinct(sorted);
    SameMembers(sorted, fields);
    assert |multiset(sorted)| == |sorted| && |multiset(fields)| == |fields|;
  }

  lemma SameMembers(a: seq<EncodedField>, b: seq<EncodedField>)
    requires DistinctIds(a) && DistinctIds(b) && forall f :: f in a <==> f in b
    ensures multiset(a) == multiset(b)
  {
    hide DistinctIds;
    forall f
      ensures multiset(a)[f] == multiset(b)[f]
    {
      CountDistinct(a, f);
      CountDistinct(b, f);
    }
  }

  /** Strictly ascending lists with the same members are equal. */
  lemma {:induction false} AscendingUnique(a: seq<EncodedField>, b: seq<EncodedField>)
    requires StrictlyAscending(a) && StrictlyAscending(b) && |a| == |b|
    requires forall f :: f in a <==> f in b
    ensures a == b
  {
    if a != [] {
      assert a[0] in b && b[0] in a;
      assert a[0] == b[0];
      forall f
        ensures f in a[1..] <==> f in b[1..]
      {
        TailMembers(a, f);
        TailMembers(b, f);
      }
      AscendingUnique(a[1..], b[1..]);
      assert a == [a[0]] + a[1..] && b == [b[0]] + b[1..];
    }
  }

  lemma TailMembers(s: seq<EncodedField>, f: EncodedField)
    requires StrictlyAscending(s) && s != []
    ensures f in s[1..] <==> f in s && f != s[0]
  {
    assert s == [s[0]] + s[1..];
    if i :| 0 <= i < |s[1..]| && s[1..][i] == f {
      assert s[i + 1] == f;
    }
  }

  lemma PermutationDistinct(a: seq<EncodedField>, b: seq<EncodedField>)
    requires DistinctIds(a) && multiset(a) == multiset(b)
    ensures DistinctIds(b)
  {
    forall i, j | 0 <= i < j < |b|
      ensures b[i].id != b[j].id
    {
      CountDistinct(a, b[i]);
      var rest := b[..i] + b[i + 1..];
      assert b == b[..i] + [b[i]] + b[i + 1..];
      assert multiset(b) == multiset(rest) + multiset{b[i]};
      assert rest[j - 1] == b[j] && b[j] in multiset(rest);
      if b[i] != b[j] {
        assert b[i] in multiset(a) && b[j] in multiset(a);
        var p :| 0 <= p < |a| && a[p] == b[i];
        var q :| 0 <= q < |a| && a[q] == b[j];
      }
    }
  }

  /** Reordering an accepted list keeps it accepted and changes nothing that is written. */
  lemma OrderDoesNotMatter(a: seq<EncodedField>, b: seq<EncodedField>, inA: Bitset, inB: Bitset)
    requires Admit(a).Ok? && multiset(a) == multiset(b) && IdsOf(inA, a) && IdsOf(inB, b)
    ensures Admit(b).Ok? && |a| == |b|
    ensures Canonical(a) == Canonical(b)
    ensures EmitFrom(a, inA, 0) == EmitFrom(b, inB, 0)
  {
    hide Complete;
    hide Admit;
    AdmitMeaning(a);
    AdmitMeaning(b);
    assert |a| == |multiset(a)| == |multiset(b)| == |b|;
    PermutationDistinct(a, b);
    forall i | 0 <= i < |b|
      ensures Complete(b[i].value)
    {
      assert b[i] in multiset(b);
      var k :| 0 <= k < |a| && a[k] == b[i];
    }
    CanonicalIsPermutation(a);
    CanonicalIsPermutation(b);
    AscendingMembers(a, 0);
    AscendingMembers(b, 0);
    forall f
      ensures f in Canonical(a) <==> f in Canonical(b)
    {
      assert f in a <==> f in multiset(a);
      assert f in b <==> f in multiset(b);
    }
    AscendingUnique(Canonical(a), Canonical(b));
    EmitIsAscending(a, inA, 0);
    EmitIsAscending(b, inB, 0);
  }
}
