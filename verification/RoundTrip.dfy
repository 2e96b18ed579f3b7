/** What the link builder writes, the parser reads back. */
module RoundTrip {
  import opened Bytes
  import opened MessagePack
  import opened Walker
  import opened Unambiguous
  import opened Readers
  import opened FieldMap
  import opened FieldSet
  import opened Encoder
  import opened Message
  import opened FieldMessages

  // ---- the trees of what the encoder writes ----

  function KeyValue(id: byte): Value {
    if id <= 0x7f then PosFixInt(id) else UInt(W8, [id])
  }

  lemma KeyValueIsKey(id: byte)
    ensures WellFormed(KeyValue(id)) && Nesting(KeyValue(id)) == 0
    ensures Encode(KeyValue(id)) == KeyBytes(id)
    ensures KeyOf(IntegersOnly, KeyValue(id)) == Some(Integer(id))
  {
    OneByte([id], 0);
    assert [id][0..1] == [id];
  }

  function BinForm(n: nat): Form {
    if n <= 0xff then Len8 else if n <= 0xffff then Len16 else Len32
  }

  function BinValue(b: bytes): Value {
    Bin(BinForm(|b|), b)
  }

  lemma BinValueIsBin(b: bytes)
    requires |b| <= U32_MAX
    ensures WellFormed(BinValue(b)) && Nesting(BinValue(b)) == 0
    ensures Encode(BinValue(b)) == BinBytes(b)
  {
    Pow256Values();
    hide Pow256;
    if |b| <= 0xff {
      OneByteNumber(|b|);
    }
    hide ToBigEndian;
  }

  lemma OneByteNumber(n: nat)
    requires n < 0x100
    ensures n < Pow256(1) && ToBigEndian(n, 1) == [n]
  {
    assert Pow256(1) == 0x100;
    assert ToBigEndian(n / 256, 0) == [];
  }

  lemma TwoByteNumber(n: nat)
    requires n < 0x100
    ensures n < Pow256(2) && ToBigEndian(n, 2) == [0, n]
  {
    assert Pow256(2) == 0x1_0000 && Pow256(1) == 0x100;
    OneByteNumber(0);
  }

  /** One tree for each key and each value of an entry list. */
  lemma {:induction false} EntryTrees(list: seq<EncodedField>) returns (items: seq<Value>)
    requires forall i :: 0 <= i < |list| ==> Complete(list[i].value)
    ensures |items| == 2 * |list| && AllWellFormed(items) && EncodeAll(items) == EntryBytes(list)
    ensures NestingInside(items) <= MAX_DEPTH
    ensures |EntryKeys(IntegersOnly, items)| == |EntryValues(items)| == |list|
    ensures forall i :: 0 <= i < |list| ==> EntryKeys(IntegersOnly, items)[i] == Some(Integer(list[i].id))
    ensures forall i :: 0 <= i < |list| ==> Denotes(EntryValues(items)[i], list[i].value, 0, |list[i].value|, 1)
  {
    hide WellFormed;
    hide Encode;
    hide Nesting;
    hide KeyOf;
    hide SkipValue;
    hide NestingInside;
    hide EncodeAll;
    items := [];
    NoEntries();
    if list != [] {
      var first, tail := list[0], list[1..];
      assert forall i :: 0 <= i < |tail| ==> tail[i] == list[i + 1];
      var rest := EntryTrees(tail);
      KeyValueIsKey(first.id);
      assert Complete(first.value);
      var v := SkipSound(first.value, 0, 1);
      var k := KeyValue(first.id);
      items := [k, v] + rest;
      PairEncoding(k, v, rest);
      PairLists(k, v, rest);
      assert first.value[0..|first.value|] == first.value;
    }
  }

  lemma NoEntries()
    ensures AllWellFormed([]) && EncodeAll([]) == [] && NestingInside([]) == 0
  {
  }

  lemma PairLists(k: Value, v: Value, rest: seq<Value>)
    requires WellFormed(k) && WellFormed(v) && AllWellFormed(rest) && AllWellFormed([k, v] + rest)
    requires 1 + Nesting(k) <= MAX_DEPTH && 1 + Nesting(v) <= MAX_DEPTH && NestingInside(rest) <= MAX_DEPTH
    ensures EntryKeys(IntegersOnly, [k, v] + rest) == [KeyOf(IntegersOnly, k)] + EntryKeys(IntegersOnly, rest)
    ensures EntryValues([k, v] + rest) == [v] + EntryValues(rest)
    ensures NestingInside([k, v] + rest) <= MAX_DEPTH
  {
    hide WellFormed;
    hide Nesting;
    hide KeyOf;
    var items := [k, v] + rest;
    assert items[2..] == rest && items[1..] == [v] + rest && items[1..][1..] == rest;
  }

  ghost predicate Within(values: seq<Value>, limit: nat) {
    forall i :: 0 <= i < |values| ==> 1 + Nesting(values[i]) <= limit
  }

  lemma WithinCons(v: Value, rest: seq<Value>, limit: nat)
    ensures Within([v] + rest, limit) <==> 1 + Nesting(v) <= limit && Within(rest, limit)
  {
    hide Nesting;
    var values := [v] + rest;
    assert values[0] == v;
    assert forall i :: 0 <= i < |rest| ==> rest[i] == values[i + 1];
    assert forall i :: 1 <= i < |values| ==> values[i] == rest[i - 1];
  }

  /** Keys open no level, so the entries nest as deep as their values. */
  lemma {:induction false} NestingOfEntries(rule: KeyRule, items: seq<Value>, limit: nat)
    requires AllWellFormed(items) && |items| % 2 == 0 && 1 <= limit && None !in EntryKeys(rule, items)
    ensures NestingInside(items) <= limit <==> Within(EntryValues(items), limit)
    decreases |items|
  {
    hide WellFormed;
    hide KeyOf;
    hide Nesting;
    hide Within;
    if items != [] {
      FirstPair(items);
      var rest := items[2..];
      assert EntryKeys(rule, items) == [KeyOf(rule, items[0])] + EntryKeys(rule, rest);
      assert EntryKeys(rule, items)[0] == KeyOf(rule, items[0]);
      KeyIsFlat(rule, items[0]);
      NestingOfEntries(rule, rest, limit);
      WithinCons(items[1], EntryValues(rest), limit);
      assert items[1..][0] == items[1] && items[1..][1..] == rest;
    } else {
      WithinNone(limit);
    }
  }

  lemma WithinNone(limit: nat)
    ensures Within([], limit)
  {
  }

  lemma KeyIsFlat(rule: KeyRule, v: Value)
    requires WellFormed(v) && KeyOf(rule, v).Some?
    ensures Nesting(v) == 0
  {
  }

  /** A value that is also complete one level further down, where stamping and sealing see it. */
  predicate Deeper(value: bytes) {
    SkipValue(value, 0, 2) == Ok(|value|)
  }

  lemma DeeperMeaning(v: Value, value: bytes)
    requires Denotes(v, value, 0, |value|, 1)
    ensures Deeper(value) <==> Nesting(v) <= 6
  {
    hide SkipValue;
    assert value[0..|value|] == value;
    SkipEncoded(value, 0, 2, v);
  }

  /** The tree of the fields element of an accepted field list. */
  lemma FieldsTree(fields: seq<EncodedField>) returns (form: Form, items: seq<Value>)
    requires Admit(fields).Ok?
    ensures |fields| <= MAX_FIELDS && IsKeyedMap(IntegersOnly, FieldsText(fields), form, items)
    ensures NestingInside(items) <= MAX_DEPTH
    ensures NestingInside(items) <= MAX_DEPTH - 1 <==> forall i :: 0 <= i < |fields| ==> Deeper(fields[i].value)
    ensures forall i :: 0 <= i < |fields| ==>
              SendsKey(IntegersOnly, FieldsText(fields), form, items, Integer(fields[i].id), fields[i].value)
    ensures forall id :: Integer(id) in AsMap(IntegersOnly, items, {}) ==> exists i :: 0 <= i < |fields| && fields[i].id == id
  {
    hide EntryBytes;
    hide EntryKeys;
    hide EntryValues;
    hide Deeper;
    hide AsMap;
    hide Nesting;
    hide NestingInside;
    hide FieldsText;
    hide Complete;
    hide Encode;
    hide Select;
    hide CheckFields;
    var list := Canonical(fields);
    AdmitMeaning(fields);
    CanonicalIsPermutation(fields);
    AscendingMembers(fields, 0);
    forall i | 0 <= i < |list|
      ensures Complete(list[i].value)
    {
      assert list[i] in list;
    }
    items := EntryTrees(list);
    form := MapForm(fields, items);
    KeyedByIds(list, items);
    FieldsDepth(fields, list, items);
    LookUpCanonical(fields, list, form, items);
  }

  lemma MapForm(fields: seq<EncodedField>, items: seq<Value>) returns (form: Form)
    requires |fields| <= MAX_FIELDS && |items| == 2 * |fields| && AllWellFormed(items)
    requires EncodeAll(items) == EntryBytes(Canonical(fields))
    ensures WellFormed(Map(form, items)) && Encode(Map(form, items)) == FieldsText(fields)
  {
    hide EntryBytes;
    hide Canonical;
    form := if |fields| < 16 then Fix else Len16;
    TwoByteNumber(|fields|);
    hide ToBigEndian;
    hide Pow256;
    assert Header(Map(form, items)) == MapPrefix(|fields|);
  }

  lemma KeyedByIds(list: seq<EncodedField>, items: seq<Value>)
    requires StrictlyAscending(list) && AllWellFormed(items) && |items| == 2 * |list|
    requires |EntryKeys(IntegersOnly, items)| == |EntryValues(items)| == |list|
    requires forall i :: 0 <= i < |list| ==> EntryKeys(IntegersOnly, items)[i] == Some(Integer(list[i].id))
    requires NestingInside(items) <= MAX_DEPTH
    ensures EntriesOk(IntegersOnly, items, {})
  {
    hide EntriesOk;
    hide EntryKeys;
    hide EntryValues;
    hide AllWellFormed;
    EntriesOkMeaning(IntegersOnly, items, {});
    NestingOfEntries(IntegersOnly, items, MAX_DEPTH);
    hide NestingInside;
    hide Nesting;
    var values := EntryValues(items);
    forall v | v in values
      ensures Nesting(v) <= MAX_DEPTH
    {
      var i :| 0 <= i < |values| && values[i] == v;
    }
  }

  lemma FieldsDepth(fields: seq<EncodedField>, list: seq<EncodedField>, items: seq<Value>)
    requires forall f :: f in list <==> f in fields
    requires AllWellFormed(items) && |items| % 2 == 0
    requires |EntryKeys(IntegersOnly, items)| == |EntryValues(items)| == |list|
    requires forall i :: 0 <= i < |list| ==> EntryKeys(IntegersOnly, items)[i] == Some(Integer(list[i].id))
    requires forall i :: 0 <= i < |list| ==> Denotes(EntryValues(items)[i], list[i].value, 0, |list[i].value|, 1)
    ensures NestingInside(items) <= MAX_DEPTH - 1 <==> forall i :: 0 <= i < |fields| ==> Deeper(fields[i].value)
  {
    hide Deeper;
    hide Denotes;
    hide EntryKeys;
    hide EntryValues;
    hide AllWellFormed;
    NestingOfEntries(IntegersOnly, items, MAX_DEPTH - 1);
    forall i | 0 <= i < |list|
      ensures Deeper(list[i].value) <==> 1 + Nesting(EntryValues(items)[i]) <= MAX_DEPTH - 1
    {
      DeeperMeaning(EntryValues(items)[i], list[i].value);
    }
    hide Nesting;
    if forall i :: 0 <= i < |fields| ==> Deeper(fields[i].value) {
      forall i | 0 <= i < |list|
        ensures Deeper(list[i].value)
      {
        assert list[i] in list;
        var k :| 0 <= k < |fields| && fields[k] == list[i];
      }
    }
    if forall i :: 0 <= i < |list| ==> Deeper(list[i].value) {
      forall i | 0 <= i < |fields|
        ensures Deeper(fields[i].value)
      {
        assert fields[i] in fields;
        var k :| 0 <= k < |list| && list[k] == fields[i];
      }
    }
  }

  lemma LookUpCanonical(fields: seq<EncodedField>, list: seq<EncodedField>, form: Form, items: seq<Value>)
    requires |fields| <= MAX_FIELDS && |list| == |fields| && forall f :: f in list <==> f in fields
    requires IsKeyedMap(IntegersOnly, FieldsText(fields), form, items) && |items| == 2 * |list|
    requires |EntryKeys(IntegersOnly, items)| == |EntryValues(items)| == |list|
    requires forall i :: 0 <= i < |list| ==> EntryKeys(IntegersOnly, items)[i] == Some(Integer(list[i].id))
    requires forall i :: 0 <= i < |list| ==> Denotes(EntryValues(items)[i], list[i].value, 0, |list[i].value|, 1)
    ensures forall i :: 0 <= i < |fields| ==>
              SendsKey(IntegersOnly, FieldsText(fields), form, items, Integer(fields[i].id), fields[i].value)
    ensures forall id :: Integer(id) in AsMap(IntegersOnly, items, {}) ==> exists i :: 0 <= i < |fields| && fields[i].id == id
  {
    hide EntryKeys;
    hide EntryValues;
    hide EntriesOk;
    hide FieldsText;
    hide Nesting;
    hide AsMap;
    forall i | 0 <= i < |fields|
      ensures SendsKey(IntegersOnly, FieldsText(fields), form, items, Integer(fields[i].id), fields[i].value)
    {
      assert fields[i] in fields;
      var k :| 0 <= k < |list| && list[k] == fields[i];
      AsMapAt(IntegersOnly, items, {}, k);
      assert list[k].value[0..|list[k].value|] == list[k].value;
    }
    forall id | Integer(id) in AsMap(IntegersOnly, items, {})
      ensures exists i :: 0 <= i < |fields| && fields[i].id == id
    {
      AsMapOnly(IntegersOnly, items, {}, Integer(id));
      var k :| 0 <= k < |list| && EntryKeys(IntegersOnly, items)[k] == Some(Integer(id));
      assert list[k] in fields;
    }
  }

  // ---- the whole payload ----

  function PayloadValue(ts: timestamp, title: bytes, content: bytes, fields: Value): Value {
    Array(Fix, [Float(W64, ts), BinValue(title), BinValue(content), fields])
  }

  lemma FourItems(a: Value, b: Value, c: Value, d: Value)
    requires WellFormed(a) && WellFormed(b) && WellFormed(c) && WellFormed(d)
    requires Nesting(a) == Nesting(b) == Nesting(c) == 0
    ensures AllWellFormed([a, b, c, d])
    ensures EncodeAll([a, b, c, d]) == Encode(a) + (Encode(b) + (Encode(c) + Encode(d)))
    ensures NestingInside([a, b, c, d]) == 1 + Nesting(d)
  {
    hide *;
    assert [b] + [c, d] == [b, c, d] && [a] + [b, c, d] == [a, b, c, d];
    Pair(c, d);
    Cons(b, [c, d]);
    Cons(a, [b, c, d]);
  }

  lemma TimestampValue(ts: timestamp)
    ensures WellFormed(Float(W64, ts)) && Encode(Float(W64, ts)) == [0xcb] + ts && Nesting(Float(W64, ts)) == 0
  {
  }

  /** A message text is the encoding of the four-element array. */
  lemma TextIsTree(ts: timestamp, title: bytes, content: bytes, fields: Value)
    requires |title| <= U32_MAX && |content| <= U32_MAX && WellFormed(fields)
    ensures WellFormed(PayloadValue(ts, title, content, fields))
    ensures Nesting(PayloadValue(ts, title, content, fields)) == 1 + Nesting(fields)
    ensures Encode(PayloadValue(ts, title, content, fields))
         == [0x94, 0xcb] + ts + (BinBytes(title) + (BinBytes(content) + Encode(fields)))
  {
    hide *;
    TimestampValue(ts);
    BinValueIsBin(title);
    BinValueIsBin(content);
    FourItems(Float(W64, ts), BinValue(title), BinValue(content), fields);
    PayloadValueShape(ts, title, content, fields);
    ArrayOfFour(PayloadValue(ts, title, content, fields));
    var rest := BinBytes(title) + (BinBytes(content) + Encode(fields));
    assert [0x94] + ([0xcb] + ts + rest) == [0x94, 0xcb] + ts + rest;
  }

  lemma PayloadValueShape(ts: timestamp, title: bytes, content: bytes, fields: Value)
    ensures PayloadValue(ts, title, content, fields)
         == Array(Fix, [Float(W64, ts), BinValue(title), BinValue(content), fields])
  {
  }

  lemma ArrayOfFour(v: Value)
    requires v.Array? && v.form == Fix && |v.items| == 4 && AllWellFormed(v.items)
    ensures WellFormed(v) && Encode(v) == [0x94] + EncodeAll(v.items) && Nesting(v) == NestingInside(v.items)
  {
    hide AllWellFormed;
    hide EncodeAll;
    hide NestingInside;
  }

  /** The text of an accepted message decodes to what it was made from. */
  lemma DecodeText(ts: timestamp, title: bytes, content: bytes, fields: seq<EncodedField>, text: bytes)
    requires Admit(fields).Ok? && |title| <= U32_MAX && |content| <= U32_MAX && |fields| <= MAX_FIELDS
    requires text == MessageText(ts, title, content, fields)
    ensures DecodePayload(text).Ok?
    ensures DecodePayload(text).value == Parts(ts, title, content, |text| - |FieldsText(fields)|, |text|)
    ensures text[|text| - |FieldsText(fields)|..] == FieldsText(fields) && text[0] == 0x94
  {
    hide *;
    var form, items := FieldsTree(fields);
    var element := FieldsText(fields);
    FieldsAccepted(element, form, items);
    MessageLayout(ts, title, content, fields, text);
    BodiesRead(text, title, content);
    FieldsSkipped(text, element, form, items);
    assert text[|text| - |element|..|text|] == element;
    DecodeFrom(text, ts, title, content, 10 + |BinBytes(title)|, |text| - |element|, |text|);
  }

  lemma MessageLayout(ts: timestamp, title: bytes, content: bytes, fields: seq<EncodedField>, text: bytes)
    requires |fields| <= MAX_FIELDS && text == MessageText(ts, title, content, fields)
    ensures |text| == 10 + |BinBytes(title)| + |BinBytes(content)| + |FieldsText(fields)|
    ensures text[0] == 0x94 && text[1] == 0xcb && text[2..10] == ts
    ensures At(text, 10, BinBytes(title)) && At(text, 10 + |BinBytes(title)|, BinBytes(content))
    ensures At(text, |text| - |FieldsText(fields)|, FieldsText(fields))
    ensures text[|text| - |FieldsText(fields)|..] == FieldsText(fields)
  {
    hide FieldsText;
    hide BinBytes;
    TextLayout(ts, title, content, FieldsText(fields), text);
  }

  lemma BodiesRead(text: bytes, title: bytes, content: bytes)
    requires |title| <= U32_MAX && |content| <= U32_MAX
    requires At(text, 10, BinBytes(title)) && At(text, 10 + |BinBytes(title)|, BinBytes(content))
    ensures ReadBin(text, 10).Ok? && ReadBin(text, 10).value == (title, 10 + |BinBytes(title)|)
    ensures ReadBin(text, 10 + |BinBytes(title)|).Ok?
    ensures ReadBin(text, 10 + |BinBytes(title)|).value == (content, 10 + |BinBytes(title)| + |BinBytes(content)|)
  {
    hide *;
    BodyRead(text, 10, title);
    BodyRead(text, 10 + |BinBytes(title)|, content);
  }

  lemma BodyRead(text: bytes, pos: nat, body: bytes)
    requires |body| <= U32_MAX && At(text, pos, BinBytes(body))
    ensures ReadBin(text, pos).Ok? && ReadBin(text, pos).value == (body, pos + |BinBytes(body)|)
  {
    BinValueIsBin(body);
    hide ReadBin;
    hide BinBytes;
    hide Encode;
    hide WellFormed;
    ReadBinOfString(text, pos, BinValue(body));
  }

  lemma FieldsSkipped(text: bytes, element: bytes, form: Form, items: seq<Value>)
    requires IsKeyedMap(IntegersOnly, element, form, items) && NestingInside(items) <= MAX_DEPTH
    requires |element| <= |text| && At(text, |text| - |element|, element)
    ensures SkipValue(text, |text| - |element|, 0).Ok? && SkipValue(text, |text| - |element|, 0).value == |text|
  {
    assert Nesting(Map(form, items)) == NestingInside(items);
    hide SkipValue;
    hide Encode;
    hide WellFormed;
    hide EntriesOk;
    hide Nesting;
    hide NestingInside;
    SkipEncoded(text, |text| - |element|, 0, Map(form, items));
  }

  lemma DecodeFrom(text: bytes, ts: timestamp, title: bytes, content: bytes, second: nat, third: nat, end: nat)
    requires |text| >= 10 && text[0] == 0x94 && text[1] == 0xcb && text[2..10] == ts
    requires ReadBin(text, 10).Ok? && ReadBin(text, 10).value == (title, second)
    requires ReadBin(text, second).Ok? && ReadBin(text, second).value == (content, third)
    requires SkipValue(text, third, 0).Ok? && SkipValue(text, third, 0).value == end
    requires FieldsVerdict(text[third..end]).Ok?
    ensures DecodePayload(text).Ok? && DecodePayload(text).value == Parts(ts, title, content, third, end)
  {
    hide ReadBin;
    hide SkipValue;
    hide FieldsVerdict;
  }

  lemma FieldsAccepted(element: bytes, form: Form, items: seq<Value>)
    requires IsKeyedMap(IntegersOnly, element, form, items)
    ensures FieldsVerdict(element).Ok?
  {
    KeyedMapWalk(IntegersOnly, element, form, items);
    hide CheckEntries;
    hide ReadMapHeader;
    hide Encode;
    hide WellFormed;
  }

  lemma TextLayout(ts: timestamp, title: bytes, content: bytes, element: bytes, text: bytes)
    requires text == [0x94, 0xcb] + ts + (BinBytes(title) + (BinBytes(content) + element))
    ensures |text| == 10 + |BinBytes(title)| + |BinBytes(content)| + |element|
    ensures text[0] == 0x94 && text[1] == 0xcb && text[2..10] == ts
    ensures At(text, 10, BinBytes(title)) && At(text, 10 + |BinBytes(title)|, BinBytes(content))
    ensures At(text, |text| - |element|, element) && text[|text| - |element|..] == element
  {
    hide BinBytes;
    var a, b := BinBytes(title), BinBytes(content);
    assert text[10..] == a + (b + element);
    assert text[10..][..|a|] == a && text[10..][|a|..] == b + element;
    assert text[10 + |a|..] == b + element;
    assert text[10 + |a|..][..|b|] == b && text[10 + |a|..][|b|..] == element;
    assert text[10 + |a| + |b|..] == element;
  }

  /** Whatever the builder accepts, in any field order, the parser reads back: same timestamp
      bits, title, content, source and message id, and each field under its id, no other. */
  lemma FullRoundTrip(
    c: Crypto, privateKey: key64, me: key64, ts: timestamp, title: bytes, content: bytes,
    fields: seq<EncodedField>, room: nat
  )
    requires Admit(fields).Ok? && |title| <= U32_MAX && |content| <= U32_MAX && |fields| <= MAX_FIELDS
    requires KeysMatch(c, privateKey) && room >= 64 + |MessageText(ts, title, content, fields)|
    ensures var text := MessageText(ts, title, content, fields);
            var dest, source := c.Delivery(c.publicKeyOf(me)), c.Delivery(c.publicKeyOf(privateKey));
            var view := ParseLink(c, me, Packed(c, privateKey, dest, text), c.publicKeyOf(privateKey), room);
            view.Ok? && view.value == View(MessageId(c, dest, source, text), source, ts, title, content, FieldsText(fields))
    ensures forall i :: 0 <= i < |fields| ==>
              FieldValueId(FieldsText(fields), fields[i].id) == Some(fields[i].value)
    ensures forall id: int :: (forall i :: 0 <= i < |fields| ==> fields[i].id != id)
              ==> FieldValueId(FieldsText(fields), id) == None
  {
    ParseBuilt(c, privateKey, me, ts, title, content, fields, room);
    LookUpBuilt(fields);
  }

  lemma PackedLayout(c: Crypto, privateKey: key64, dest: hash16, text: bytes, data: bytes)
    requires data == Packed(c, privateKey, dest, text)
    ensures |data| == 96 + |text| && data[..16] == dest && data[96..] == text
    ensures data[16..32] == c.Delivery(c.publicKeyOf(privateKey))
    ensures data[32..96] == c.sign(privateKey, Signed(c, dest, c.Delivery(c.publicKeyOf(privateKey)), text))
  {
    hide Signed;
  }

  lemma ParseBuilt(
    c: Crypto, privateKey: key64, me: key64, ts: timestamp, title: bytes, content: bytes,
    fields: seq<EncodedField>, room: nat
  )
    requires Admit(fields).Ok? && |title| <= U32_MAX && |content| <= U32_MAX && |fields| <= MAX_FIELDS
    requires KeysMatch(c, privateKey) && room >= 64 + |MessageText(ts, title, content, fields)|
    ensures var text := MessageText(ts, title, content, fields);
            var dest, source := c.Delivery(c.publicKeyOf(me)), c.Delivery(c.publicKeyOf(privateKey));
            var view := ParseLink(c, me, Packed(c, privateKey, dest, text), c.publicKeyOf(privateKey), room);
            view.Ok? && view.value == View(MessageId(c, dest, source, text), source, ts, title, content, FieldsText(fields))
  {
    hide *;
    var text := MessageText(ts, title, content, fields);
    var dest := c.Delivery(c.publicKeyOf(me));
    DecodeText(ts, title, content, fields, text);
    ParseGenuine(c, privateKey, me, text, room);
    assert text[|text| - |FieldsText(fields)|..|text|] == FieldsText(fields);
  }

  /** A genuine message whose payload decodes is accepted by its recipient. */
  lemma ParseGenuine(c: Crypto, privateKey: key64, me: key64, text: bytes, room: nat)
    requires DecodePayload(text).Ok? && text[0] == 0x94 && DecodePayload(text).value.end == |text|
    requires KeysMatch(c, privateKey) && room >= 64 + |text|
    ensures var dest, source := c.Delivery(c.publicKeyOf(me)), c.Delivery(c.publicKeyOf(privateKey));
            var view := ParseLink(c, me, Packed(c, privateKey, dest, text), c.publicKeyOf(privateKey), room);
            var parts := DecodePayload(text).value;
            view.Ok? && view.value == View(MessageId(c, dest, source, text), source, parts.ts, parts.title,
                                           parts.content, text[parts.fieldsAt..parts.end])
  {
    var dest := c.Delivery(c.publicKeyOf(me));
    VerifiedGenuine(c, privateKey, dest, text);
    ParseSplit(c, privateKey, me, text, room);
  }

  /** The recipient gets past every check but the signature's. */
  lemma ParseSplit(c: Crypto, privateKey: key64, me: key64, text: bytes, room: nat)
    requires DecodePayload(text).Ok? && room >= 64 + |text|
    ensures var dest, source := c.Delivery(c.publicKeyOf(me)), c.Delivery(c.publicKeyOf(privateKey));
            var sig := c.sign(privateKey, Signed(c, dest, source, text));
            ParseLink(c, me, Packed(c, privateKey, dest, text), c.publicKeyOf(privateKey), room)
            == Verified(c, dest, source, c.publicKeyOf(privateKey), sig, text, DecodePayload(text).value)
  {
    var dest := c.Delivery(c.publicKeyOf(me));
    PackedLayout(c, privateKey, dest, text, Packed(c, privateKey, dest, text));
    hide DecodePayload;
    hide Signed;
    hide Packed;
    hide Verified;
  }

  /** The signature of a genuine message verifies. */
  lemma VerifiedGenuine(c: Crypto, privateKey: key64, dest: hash16, text: bytes)
    requires DecodePayload(text).Ok? && text[0] == 0x94 && DecodePayload(text).value.end == |text|
    requires KeysMatch(c, privateKey)
    ensures var source, parts := c.Delivery(c.publicKeyOf(privateKey)), DecodePayload(text).value;
            var sig := c.sign(privateKey, Signed(c, dest, source, text));
            var view := Verified(c, dest, source, c.publicKeyOf(privateKey), sig, text, parts);
            view.Ok? && view.value == View(MessageId(c, dest, source, text), source, parts.ts, parts.title,
                                           parts.content, text[parts.fieldsAt..parts.end])
  {
    assert FourElements(text, |text|) == text;
    hide DecodePayload;
    hide Signed;
    hide MessageId;
    hide FourElements;
    hide SigningKey;
  }

  lemma LookUpBuilt(fields: seq<EncodedField>)
    requires Admit(fields).Ok? && |fields| <= MAX_FIELDS
    ensures forall i :: 0 <= i < |fields| ==>
              FieldValueId(FieldsText(fields), fields[i].id) == Some(fields[i].value)
    ensures forall id: int :: (forall i :: 0 <= i < |fields| ==> fields[i].id != id)
              ==> FieldValueId(FieldsText(fields), id) == None
  {
    hide FieldValueId;
    hide FieldsText;
    hide Admit;
    hide Encode;
    var element := FieldsText(fields);
    var form, items := FieldsTree(fields);
    forall i | 0 <= i < |fields|
      ensures FieldValueId(element, fields[i].id) == Some(fields[i].value)
    {
      FieldLookupRefinesMap(element, fields[i].id, fields[i].value);
    }
    forall id: int | forall i :: 0 <= i < |fields| ==> fields[i].id != id
      ensures FieldValueId(element, id) == None
    {
      if FieldValueId(element, id).Some? {
        var value := FieldValueId(element, id).value;
        FieldLookupRefinesMap(element, id, value);
        var form2, items2 :| SendsKey(IntegersOnly, element, form2, items2, Integer(id), value);
        OneFieldMap(element, form, items, form2, items2);
      }
    }
  }

  lemma OneFieldMap(element: bytes, form: Form, items: seq<Value>, form2: Form, items2: seq<Value>)
    requires IsKeyedMap(IntegersOnly, element, form, items) && IsKeyedMap(IntegersOnly, element, form2, items2)
    ensures items == items2
  {
    hide WellFormed;
    hide Encode;
    assert element[0..|element|] == element;
    OneTree(element, 0, Map(form, items), Map(form2, items2));
  }
}
