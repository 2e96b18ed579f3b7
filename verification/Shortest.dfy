/** The encoder's text is the tree the format describes, and the shortest encoding of it. */
module Shortest {
  import opened Bytes
  import opened MessagePack
  import opened Walker
  import opened Readers
  import opened FieldMap
  import opened FieldSet
  import opened Encoder
  import opened FieldMessages
  import opened RoundTrip

  // ---- the tree of a message ----

  /** The entries of `items` are those of `fields`, each once, in strictly ascending id order, its
      id as an integer key and its value verbatim. */
  ghost predicate EntriesOf(fields: seq<EncodedField>, list: seq<EncodedField>, items: seq<Value>) {
    && multiset(list) == multiset(fields)
    && (forall i, j :: 0 <= i < j < |list| ==> list[i].id < list[j].id)
    && HoldsEntries(list, items)
  }

  ghost predicate HoldsEntries(list: seq<EncodedField>, items: seq<Value>) {
    && AllWellFormed(items) && |items| == 2 * |list|
    && |EntryKeys(IntegersOnly, items)| == |EntryValues(items)| == |list|
    && forall i :: 0 <= i < |list| ==>
         && EntryKeys(IntegersOnly, items)[i] == Some(Integer(list[i].id))
         && EncodesTo(EntryValues(items)[i], list[i].value)
  }

  ghost predicate EncodesTo(v: Value, s: bytes) {
    WellFormed(v) && Encode(v) == s
  }

  lemma {:induction false} ListTree(list: seq<EncodedField>) returns (items: seq<Value>)
    requires forall i :: 0 <= i < |list| ==> Complete(list[i].value)
    ensures HoldsEntries(list, items) && EncodeAll(items) == EntryBytes(list)
  {
    hide WellFormed;
    hide Encode;
    hide EncodeAll;
    hide NestingInside;
    hide Nesting;
    hide EntryBytes;
    hide EntryKeys;
    hide EntryValues;
    hide Complete;
    items := EntryTrees(list);
    forall i | 0 <= i < |list|
      ensures EncodesTo(EntryValues(items)[i], list[i].value)
    {
      assert Denotes(EntryValues(items)[i], list[i].value, 0, |list[i].value|, 1);
      assert list[i].value[0..|list[i].value|] == list[i].value;
    }
  }

  lemma CanonicalList(fields: seq<EncodedField>)
    requires Admit(fields).Ok?
    ensures var list := Canonical(fields);
            && |list| == |fields| <= 64 && multiset(list) == multiset(fields)
            && (forall i :: 0 <= i < |list| ==> Complete(list[i].value))
            && (forall i, j :: 0 <= i < j < |list| ==> list[i].id < list[j].id)
  {
    AdmitMeaning(fields);
    CanonicalIsPermutation(fields);
    hide Canonical;
    hide Complete;
    var list := Canonical(fields);
    forall i | 0 <= i < |list|
      ensures Complete(list[i].value)
    {
      assert list[i] in multiset(list);
      var k :| 0 <= k < |fields| && fields[k] == list[i];
    }
  }

  /** The text of an accepted message is one tree: a four-element array of timestamp, title,
      content and the given fields in ascending id order. */
  lemma MessageIsTree(ts: timestamp, title: bytes, content: bytes, fields: seq<EncodedField>)
    returns (titleForm: Form, contentForm: Form, mapForm: Form, list: seq<EncodedField>, items: seq<Value>)
    requires Admit(fields).Ok? && |title| <= 0xFFFF_FFFF && |content| <= 0xFFFF_FFFF && |fields| <= 64
    ensures EntriesOf(fields, list, items)
    ensures EncodesTo(Array(Fix, [Float(W64, ts), Bin(titleForm, title), Bin(contentForm, content), Map(mapForm, items)]),
                      MessageText(ts, title, content, fields))
  {
    titleForm, contentForm, list := BinForm(|title|), BinForm(|content|), Canonical(fields);
    CanonicalList(fields);
    hide Canonical;
    hide Admit;
    hide Complete;
    items := ListTree(list);
    mapForm := FieldsMap(fields, list, items);
    hide HoldsEntries;
    hide Encode;
    hide WellFormed;
    TextIsTree(ts, title, content, Map(mapForm, items));
    hide FieldsText;
    hide BinBytes;
    hide BinForm;
  }

  lemma FieldsMap(fields: seq<EncodedField>, list: seq<EncodedField>, items: seq<Value>) returns (form: Form)
    requires |fields| <= 64 && list == Canonical(fields) && |list| == |fields|
    requires HoldsEntries(list, items) && EncodeAll(items) == EntryBytes(list)
    ensures EncodesTo(Map(form, items), FieldsText(fields))
  {
    hide Canonical;
    hide EncodeAll;
    hide EntryBytes;
    hide EntryKeys;
    hide EntryValues;
    hide EncodesTo;
    form := MapForm(fields, items);
    assert EncodesTo(Map(form, items), FieldsText(fields)) by {
      EncodesToOf(Map(form, items), FieldsText(fields));
    }
  }

  lemma EncodesToOf(v: Value, s: bytes)
    requires WellFormed(v) && Encode(v) == s
    ensures EncodesTo(v, s)
  {
  }

  // ---- nothing shorter encodes the same ----

  /** An id is written in the only shortest encoding of its number. */
  lemma KeyIsShortest(id: byte, v: Value)
    requires WellFormed(v) && IntOf(v) == Some(id as int)
    ensures |Encode(v)| >= |KeyBytes(id)|
    ensures |Encode(v)| == |KeyBytes(id)| ==> Encode(v) == KeyBytes(id)
  {
    if v.UInt? && v.w.W8? {
      OneByte(v.body, 0);
      assert v.body[0..1] == v.body;
    } else if v.SInt? && v.w.W8? {
      IntegerRange(v.body);
      OneByte(v.body, 0);
      assert v.body[0..1] == v.body;
    }
    hide BigEndian;
  }

  /** ... and a bin under its only shortest header. */
  lemma BinIsShortest(b: bytes, form: Form)
    requires WellFormed(Bin(form, b)) && |b| <= 0xFFFF_FFFF
    ensures |Encode(Bin(form, b))| >= |BinBytes(b)|
    ensures |Encode(Bin(form, b))| == |BinBytes(b)| ==> Encode(Bin(form, b)) == BinBytes(b)
  {
    BinValueIsBin(b);
    Pow256Values();
    HeaderOfBin(form, b);
    HeaderOfBin(BinForm(|b|), b);
    hide Encode;
    hide BinBytes;
  }

  lemma HeaderOfBin(form: Form, b: bytes)
    requires WellFormed(Bin(form, b))
    ensures |Encode(Bin(form, b))| == 1 + form.Size() + |b|
  {
    hide ToBigEndian;
    hide Pow256;
  }

  lemma {:induction false} EntriesAreShortest(list: seq<EncodedField>, items: seq<Value>)
    requires HoldsEntries(list, items)
    ensures |EncodeAll(items)| >= |EntryBytes(list)|
  {
    hide KeyBytes;
    hide Encode;
    hide WellFormed;
    hide KeyOf;
    if list != [] {
      var first, rest := list[0], items[2..];
      FirstPair(items);
      EncodeSplit(items);
      EntryCounts(IntegersOnly, rest);
      assert EntryKeys(IntegersOnly, items) == [KeyOf(IntegersOnly, items[0])] + EntryKeys(IntegersOnly, rest);
      assert EntryValues(items) == [items[1]] + EntryValues(rest);
      assert EntryKeys(IntegersOnly, items)[0] == Some(Integer(first.id)) && EncodesTo(EntryValues(items)[0], first.value);
      KeyIsInteger(items[0], first.id);
      KeyIsShortest(first.id, items[0]);
      forall i | 0 <= i < |list[1..]|
        ensures EntryKeys(IntegersOnly, rest)[i] == Some(Integer(list[1..][i].id))
        ensures EncodesTo(EntryValues(rest)[i], list[1..][i].value)
      {
        assert EntryKeys(IntegersOnly, rest)[i] == EntryKeys(IntegersOnly, items)[i + 1];
        assert EntryValues(rest)[i] == EntryValues(items)[i + 1];
      }
      EntriesAreShortest(list[1..], rest);
    }
  }

  lemma KeyIsInteger(v: Value, id: int)
    requires WellFormed(v) && KeyOf(IntegersOnly, v) == Some(Integer(id))
    ensures IntOf(v) == Some(id)
  {
  }

  lemma MapIsShortest(form: Form, items: seq<Value>)
    requires WellFormed(Map(form, items)) && |items| <= 2 * 64
    ensures |Encode(Map(form, items))| >= |MapPrefix(|items| / 2)| + |EncodeAll(items)|
  {
    hide ToBigEndian;
    hide Pow256;
    hide EncodeAll;
  }

  lemma ArrayIsShortest(form: Form, items: seq<Value>)
    requires WellFormed(Array(form, items))
    ensures |Encode(Array(form, items))| >= 1 + |EncodeAll(items)| && AllWellFormed(items)
  {
    hide ToBigEndian;
    hide Pow256;
    hide EncodeAll;
    hide AllWellFormed;
  }

  lemma FourLengths(a: Value, b: Value, c: Value, d: Value)
    requires AllWellFormed([a, b, c, d])
    ensures WellFormed(a) && WellFormed(b) && WellFormed(c) && WellFormed(d)
    ensures |EncodeAll([a, b, c, d])| == |Encode(a)| + |Encode(b)| + |Encode(c)| + |Encode(d)|
  {
    var items := [a, b, c, d];
    AllWellFormedAt(items, 0);
    AllWellFormedAt(items, 1);
    AllWellFormedAt(items, 2);
    AllWellFormedAt(items, 3);
    hide *;
    Single(d);
    Cons(c, [d]);
    assert [c] + [d] == [c, d] && [b] + [c, d] == [b, c, d] && [a] + [b, c, d] == items;
    Cons(b, [c, d]);
    Cons(a, [b, c, d]);
  }

  /** No encoding of these four elements is shorter than the text of the message, whatever forms
      and integer encodings it uses. */
  lemma MessageIsShortest(
    ts: timestamp, title: bytes, content: bytes, fields: seq<EncodedField>, form: Form, titleForm: Form,
    contentForm: Form, mapForm: Form, list: seq<EncodedField>, items: seq<Value>, s: bytes
  )
    requires Admit(fields).Ok? && |title| <= 0xFFFF_FFFF && |content| <= 0xFFFF_FFFF && |fields| <= 64
    requires EntriesOf(fields, list, items)
    requires EncodesTo(Array(form, [Float(W64, ts), Bin(titleForm, title), Bin(contentForm, content), Map(mapForm, items)]), s)
    ensures |s| >= |MessageText(ts, title, content, fields)|
  {
    CanonicalOnly(fields, list);
    EntriesAreShortest(list, items);
    hide EntriesOf;
    hide HoldsEntries;
    hide Admit;
    hide Canonical;
    hide EntryBytes;
    hide WellFormed;
    hide Encode;
    hide AllWellFormed;
    hide EncodeAll;
    hide BinBytes;
    ArrayIsShortest(form, [Float(W64, ts), Bin(titleForm, title), Bin(contentForm, content), Map(mapForm, items)]);
    FourLengths(Float(W64, ts), Bin(titleForm, title), Bin(contentForm, content), Map(mapForm, items));
    TimestampValue(ts);
    BinIsShortest(title, titleForm);
    BinIsShortest(content, contentForm);
    MapIsShortest(mapForm, items);
    hide MapPrefix;
  }

  lemma CanonicalOnly(fields: seq<EncodedField>, list: seq<EncodedField>)
    requires Admit(fields).Ok? && multiset(list) == multiset(fields)
    requires forall i, j :: 0 <= i < j < |list| ==> list[i].id < list[j].id
    ensures list == Canonical(fields) && |list| == |fields|
  {
    CanonicalList(fields);
    hide Canonical;
    hide Admit;
    hide Complete;
    var sorted := Canonical(fields);
    assert |list| == |multiset(list)| == |multiset(sorted)| == |sorted|;
    forall f
      ensures f in list <==> f in sorted
    {
      assert f in list <==> f in multiset(list);
      assert f in sorted <==> f in multiset(sorted);
    }
    AscendingUnique(list, sorted);
  }

  /** The size admission grants exactly the length of the message, within the limits of bin32 and
      of the machine's word. */
  lemma SizeIsMessage(
    usizeMax: nat, ts: timestamp, title: bytes, content: bytes, fields: seq<EncodedField>, n: nat
  )
    requires |fields| <= 64
    ensures PackedSize(usizeMax, |title|, |content|, fields) == Ok(n)
       <==> && Admit(fields).Ok? && |title| <= 0xFFFF_FFFF && |content| <= 0xFFFF_FFFF
            && n == 96 + |MessageText(ts, title, content, fields)| <= usizeMax
    ensures var r := PackedSize(usizeMax, |title|, |content|, fields);
            r.Err? ==> r.error == if Admit(fields).Err? then Admit(fields).error else TooLong
  {
    if Admit(fields).Ok? && |title| <= 0xFFFF_FFFF && |content| <= 0xFFFF_FFFF {
      SizeOfText(ts, title, content, fields);
    }
    hide Admit;
    hide PackedCount;
    hide MessageText;
  }
}
