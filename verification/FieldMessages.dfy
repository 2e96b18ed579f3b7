/** Link messages with caller-encoded fields: admission, the bytes written, and their tree. */
module FieldMessages {
  import opened Bytes
  import opened FieldMap
  import opened FieldSet
  import opened Encoder
  import opened Message
  import opened Codec

  // ---- the text of a message ----

  function BinBytes(b: bytes): bytes {
    BinContent(Body(b))
  }

  /** The fields element: a map header, then each entry once in ascending id order. */
  function FieldsText(fields: seq<EncodedField>): bytes
    requires |fields| <= MAX_FIELDS
  {
    MapPrefix(|fields|) + EntryBytes(Canonical(fields))
  }

  function MessageText(ts: timestamp, title: bytes, content: bytes, fields: seq<EncodedField>): bytes
    requires |fields| <= MAX_FIELDS
  {
    [0x94, 0xcb] + ts + (BinBytes(title) + (BinBytes(content) + FieldsText(fields)))
  }

  lemma TextOfEncoder(ts: timestamp, title: bytes, content: bytes, fields: seq<EncodedField>, present: Bitset)
    requires Admit(fields).Ok? && IdsOf(present, fields)
    ensures FieldsContent(Encoded(fields, present)) == FieldsText(fields)
    ensures PayloadText(ts, title, content, Encoded(fields, present)) == MessageText(ts, title, content, fields)
  {
    AdmitMeaning(fields);
    EmitIsAscending(fields, present, 0);
    hide EmitFrom;
    hide EntryBytes;
    hide Admit;
  }

  /** A permutation of an accepted field list makes the same message. */
  lemma OrderDoesNotMatterForMessage(
    ts: timestamp, title: bytes, content: bytes, a: seq<EncodedField>, b: seq<EncodedField>
  )
    requires Admit(a).Ok? && multiset(a) == multiset(b)
    ensures Admit(b).Ok? && MessageText(ts, title, content, a) == MessageText(ts, title, content, b)
  {
    AdmitMeaning(a);
    var inA := IdBits(a);
    var inB := IdBits(b);
    OrderDoesNotMatter(a, b, inA, inB);
  }

  /** Some bitset holds exactly the ids of a list. */
  lemma {:induction false} IdBits(fields: seq<EncodedField>) returns (present: Bitset)
    ensures IdsOf(present, fields)
  {
    hide Has;
    if fields == [] {
      present := seq(32, _ => 0);
      EmptyHas(present);
    } else {
      var k := |fields| - 1;
      var before := IdBits(fields[..k]);
      present := SetBit(before, fields[k].id);
      IdSetGrow(fields, k);
      assert fields[..k + 1] == fields;
      forall id: byte
        ensures Has(present, id) <==> id in IdSet(fields)
      {
        SetBitHas(before, fields[k].id, id);
      }
    }
  }

  // ---- size admission ----

  /** The size of a packed message, over unbounded integers. */
  function PackedCount(titleLen: nat, contentLen: nat, fields: seq<EncodedField>): nat {
    LXMF_PACKED_PREFIX + 10 + BinSize(titleLen) + BinSize(contentLen)
    + (if |fields| < 16 then 1 else 3) + |EntryBytes(Canonical(fields))|
  }

  /** The size, when it is within the limits of the encoding and of the machine. */
  function PackedSize(usizeMax: nat, titleLen: nat, contentLen: nat, fields: seq<EncodedField>): Result<nat> {
    match Admit(fields)
    case Err(error) => Err(error)
    case Ok(_) =>
      var n := PackedCount(titleLen, contentLen, fields);
      if titleLen <= U32_MAX && contentLen <= U32_MAX && n <= usizeMax then Ok(n) else Err(TooLong)
  }

  /** `packed_len_with_fields`: the size is counted by the encoder itself, from lengths alone. */
  method PackedLenWithFields(usizeMax: nat, titleLen: nat, contentLen: nat, fields: seq<EncodedField>)
    returns (r: Result<nat>)
    requires LXMF_PACKED_PREFIX <= usizeMax
    ensures r == PackedSize(usizeMax, titleLen, contentLen, fields)
  {
    hide EmitFrom;
    hide EntryBytes;
    hide Has;
    var present :- EncodedFieldSet(fields);
    AdmitMeaning(fields);
    hide CheckFields;
    EmitIsAscending(fields, present, 0);
    r := PackedLen(usizeMax, titleLen, contentLen, Encoded(fields, present));
  }

  lemma SizeOfText(ts: timestamp, title: bytes, content: bytes, fields: seq<EncodedField>)
    requires Admit(fields).Ok? && |title| <= U32_MAX && |content| <= U32_MAX
    ensures |fields| <= MAX_FIELDS
    ensures LXMF_PACKED_PREFIX + |MessageText(ts, title, content, fields)| == PackedCount(|title|, |content|, fields)
  {
    AdmitMeaning(fields);
    hide CheckFields;
    hide Canonical;
    hide ToBigEndian;
    Pow256Values();
    assert |BinBytes(title)| == BinSize(|title|);
    assert |BinBytes(content)| == BinSize(|content|);
  }

  /** The size admission is the room the encoder needs. */
  lemma RoomIsSize(ts: timestamp, title: bytes, content: bytes, fields: seq<EncodedField>, present: Bitset)
    requires Admit(fields).Ok? && IdsOf(present, fields)
    ensures Encodable(title, content, Encoded(fields, present)) <==> |title| <= U32_MAX && |content| <= U32_MAX
    ensures var text := PayloadText(ts, title, content, Encoded(fields, present));
            && (Encodable(title, content, Encoded(fields, present)) ==>
                  LXMF_PACKED_PREFIX + |text| == PackedCount(|title|, |content|, fields))
  {
    AdmitMeaning(fields);
    TextOfEncoder(ts, title, content, fields, present);
    hide Has;
    hide IdsOf;
    hide PackedCount;
    if |title| <= U32_MAX && |content| <= U32_MAX {
      SizeOfText(ts, title, content, fields);
    }
    hide PayloadText;
    hide MessageText;
    hide CheckFields;
    hide Admissible;
  }

  /** `build_link_with_fields`: with N from the size admission, it succeeds just when `out` has
      N bytes and `scratch` N - 32; it then writes exactly those N bytes, and a failure leaves
      every result as it was. */
  method BuildLinkWithFields(
    c: Crypto, privateKey: key64, recipient: key64, ts: timestamp, title: bytes, content: bytes,
    fields: seq<EncodedField>, usizeMax: nat,
    out: array<byte>, scratch: array<byte>, outDest: array<byte>, outId: array<byte>
  )
    returns (r: Result<nat>)
    requires out.Length <= usizeMax && LXMF_PACKED_PREFIX <= usizeMax
    requires outDest.Length == 16 && outId.Length == 32
    requires out != scratch && outDest != out && outDest != scratch && outId != out && outId != scratch && outId != outDest
    modifies out, scratch, outDest, outId
    ensures r.Ok? <==> && PackedSize(usizeMax, |title|, |content|, fields).Ok?
                       && out.Length >= PackedSize(usizeMax, |title|, |content|, fields).value
                       && scratch.Length >= PackedSize(usizeMax, |title|, |content|, fields).value - 32
    ensures r.Ok? ==>
              && |fields| <= MAX_FIELDS
              && r.value == PackedSize(usizeMax, |title|, |content|, fields).value
              && LinkBuilt(c, privateKey, recipient, MessageText(ts, title, content, fields), r.value,
                           old(out[..]), out[..], outDest[..], outId[..])
    ensures r.Err? ==> out[..] == old(out[..]) && outDest[..] == old(outDest[..]) && outId[..] == old(outId[..])
    ensures Admit(fields).Err? ==> r == Err(Admit(fields).error)
    ensures r.Err? && Admit(fields).Ok? ==> r.error == if scratch.Length < 64 + 11 || out.Length < LXMF_PACKED_PREFIX + 11
                                                       then OutputTooSmall else TooLong
  {
    var present :- EncodedFieldSet(fields);
    AdmitMeaning(fields);
    TextOfEncoder(ts, title, content, fields, present);
    RoomIsSize(ts, title, content, fields, present);
    hide Admit;
    hide Admissible;
    hide IdsOf;
    hide PackedCount;
    hide Packed;
    hide MessageId;
    hide LinkBuilt;
    hide PayloadText;
    hide MessageText;
    hide Encodable;
    r := BuildLink(c, privateKey, recipient, ts, title, content, Encoded(fields, present), out, scratch, outDest, outId);
  }
}
