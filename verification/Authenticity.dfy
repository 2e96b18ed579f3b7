/** What an accepted message is: bytes laid out as the format says, signed by the named source
    for the reader itself; and what every builder signs. */
module Authenticity {
  import opened Bytes
  import opened MessagePack
  import opened Walker
  import opened Unambiguous
  import opened Readers
  import opened FieldMap
  import opened Encoder
  import opened Message

  // ---- the payload, as trees ----

  /** After a marker of four to fifteen elements: a float64, two strings and any value within the
      nesting limit. */
  ghost predicate Laid(payload: bytes, ts: timestamp, title: Value, content: Value, fields: Value, end: nat) {
    && end <= |payload| && 1 < end && 0x94 <= payload[0] <= 0x9f
    && WellFormed(title) && WellFormed(content) && WellFormed(fields)
    && IsString(title) && IsString(content) && Nesting(fields) <= 8
    && payload[1..end] == [0xcb] + ts + (Encode(title) + (Encode(content) + Encode(fields)))
  }

  /** A fields element is refused only as a map: one of more than 64 entries, or with a key that
      is no integer or repeats one. Whatever is no map passes. */
  lemma FieldsElement(v: Value)
    requires WellFormed(v) && Nesting(v) <= 8
    ensures FieldsVerdict(Encode(v)).Ok?
       <==> (v.Map? ==> |v.items| <= 2 * 64 && EntriesOk(IntegersOnly, v.items, {}))
  {
    var data := Encode(v);
    assert data[0..|data|] == data;
    AtConcat(data, 0, Header(v), Payload(v));
    MapShape(data, v);
    MapHeaderHead(data);
    hide ReadHead;
    hide Header;
    hide CheckEntries;
    hide ReadMapHeader;
    hide EntriesOk;
    if v.Map? {
      MapHeaderOfTree(v.form, v.items);
      assert v == Map(v.form, v.items);
      EntriesEncoded(IntegersOnly, data, ReadMapHeader(data).value.0, v.items, {});
    }
  }

  lemma LaidOut(payload: bytes, ts: timestamp, title: bytes, content: bytes, fields: bytes, end: nat)
    requires 1 < end <= |payload| && payload[1..end] == [0xcb] + ts + (title + (content + fields))
    ensures var second := 10 + |title|;
            var third := second + |content|;
            && payload[1] == 0xcb && payload[2..10] == ts && third + |fields| == end
            && At(payload, 10, title) && At(payload, second, content) && At(payload, third, fields)
            && payload[third..end] == fields
  {
    var part := payload[1..end];
    assert At(payload, 1, part);
    AtConcat(payload, 1, [0xcb] + ts, title + (content + fields));
    AtConcat(payload, 1, [0xcb], ts);
    AtConcat(payload, 10, title, content + fields);
    AtConcat(payload, 10 + |title|, content, fields);
    assert payload[1..2] == [0xcb];
  }

  /** A payload laid out as trees decodes to them, unless its fields element is refused. */
  lemma PayloadOfTrees(payload: bytes, ts: timestamp, title: Value, content: Value, fields: Value, end: nat)
    requires Laid(payload, ts, title, content, fields, end)
    ensures |Encode(fields)| <= end
    ensures var verdict := FieldsVerdict(Encode(fields));
            && (verdict.Ok? <==> DecodePayload(payload).Ok?)
            && (verdict.Ok? ==>
                  DecodePayload(payload).value == Parts(ts, title.body, content.body, end - |Encode(fields)|, end))
            && (verdict.Err? ==> DecodePayload(payload).error == verdict.error)
  {
    hide WellFormed;
    hide Encode;
    hide Nesting;
    hide ReadBin;
    hide SkipValue;
    hide FieldsVerdict;
    LaidOut(payload, ts, Encode(title), Encode(content), Encode(fields), end);
    ReadBinOfString(payload, 10, title);
    ReadBinOfString(payload, 10 + |Encode(title)|, content);
    SkipEncoded(payload, end - |Encode(fields)|, 0, fields);
    hide At;
  }

  /** Unless it is refused as malformed, a payload is laid out as trees. */
  lemma PayloadTrees(payload: bytes) returns (ts: timestamp, title: Value, content: Value, fields: Value, end: nat)
    requires DecodePayload(payload) != Err(MalformedPayload)
    ensures Laid(payload, ts, title, content, fields, end)
  {
    hide ReadBin;
    hide SkipValue;
    hide FieldsVerdict;
    hide WellFormed;
    hide Encode;
    hide Nesting;
    ts := payload[2..10];
    var second := ReadBin(payload, 10).value.1;
    var third := ReadBin(payload, second).value.1;
    end := SkipValue(payload, third, 0).value;
    title := StringAtReadBin(payload, 10);
    content := StringAtReadBin(payload, second);
    fields := SkipSound(payload, third, 0);
    assert payload[1..end] == [payload[1]] + payload[2..10] + (payload[10..second] + (payload[second..third] + payload[third..end]));
  }

  /** The fields element is no map, or one of at most 64 entries with distinct integer keys. */
  ghost predicate FieldsAllowed(fields: Value)
    requires WellFormed(fields)
  {
    fields.Map? ==> |fields.items| <= 2 * 64 && EntriesOk(IntegersOnly, fields.items, {})
  }

  /** The parts are those of these trees. */
  ghost predicate PartsOf(payload: bytes, parts: Parts, title: Value, content: Value, fields: Value) {
    && Laid(payload, parts.ts, title, content, fields, parts.end)
    && FieldsAllowed(fields)
    && parts.title == title.body && parts.content == content.body
    && parts.fieldsAt == parts.end - |Encode(fields)|
  }

  /** A payload decodes just when it is laid out as trees with an allowed fields element, and to
      the parts of those trees. */
  lemma PayloadIsGrammar(payload: bytes, parts: Parts)
    ensures (DecodePayload(payload).Ok? && DecodePayload(payload).value == parts)
       <==> exists title, content, fields :: PartsOf(payload, parts, title, content, fields)
  {
    hide DecodePayload;
    hide FieldsVerdict;
    hide WellFormed;
    hide Encode;
    hide Nesting;
    hide EntriesOk;
    if DecodePayload(payload).Ok? && DecodePayload(payload).value == parts {
      var ts, title, content, fields, end := PayloadTrees(payload);
      PayloadOfTrees(payload, ts, title, content, fields, end);
      FieldsElement(fields);
      assert PartsOf(payload, parts, title, content, fields);
    }
    if title, content, fields :| PartsOf(payload, parts, title, content, fields) {
      PayloadOfTrees(payload, parts.ts, title, content, fields, parts.end);
      FieldsElement(fields);
    }
  }

  // ---- what a reader accepts ----

  /** `dest || source || four elements` is what `id` hashes, and with that hash behind it what
      the Ed25519 half of `key` verifies; `source` is the delivery destination of `key`. */
  ghost predicate SignedBy(
    c: Crypto, key: key64, dest: bytes, source: bytes, sig: signature, payload: bytes, end: nat, id: bytes
  )
    requires 1 <= end <= |payload|
  {
    var region := dest + source + [0x94] + payload[1..end];
    && source == c.destinationHash(c.identityHash(key))
    && id == c.sha256(region)
    && c.validKey(key[32..]) && c.verify(key[32..], region + c.sha256(region), sig)
  }

  lemma VerifiedMeaning(
    c: Crypto, dest: hash16, source: hash16, key: key64, sig: signature, payload: bytes, parts: Parts
  )
    requires DecodePayload(payload) == Ok(parts) && source == c.destinationHash(c.identityHash(key))
    ensures var region := dest + source + [0x94] + payload[1..parts.end];
            var view := Verified(c, dest, source, key, sig, payload, parts);
            && (view.Ok? <==> SignedBy(c, key, dest, source, sig, payload, parts.end, c.sha256(region)))
            && (view.Ok? ==> view.value == View(c.sha256(region), source, parts.ts, parts.title, parts.content,
                                                payload[parts.fieldsAt..parts.end]))
            && (view.Err? ==> view.error == SignatureInvalid)
  {
    hide DecodePayload;
    var four := FourElements(payload, parts.end);
    assert dest + source + four == dest + source + [0x94] + payload[1..parts.end];
  }

  lemma NotItsSource(
    c: Crypto, key: key64, dest: bytes, source: bytes, sig: signature, payload: bytes, end: nat, id: bytes
  )
    requires 1 <= end <= |payload| && c.Delivery(key) != source
    ensures !SignedBy(c, key, dest, source, sig, payload, end, id)
  {
  }

  /** `parse_link` accepts a message just when it is long enough, addressed to the reader, laid
      out as the format says, within scratch, and signed by the named source; then it answers
      exactly what was signed. */
  lemma AcceptedLink(c: Crypto, me: key64, data: bytes, key: key64, room: nat)
    ensures ParseLink(c, me, data, key, room).Ok?
       <==> && |data| > 96 && DecodePayload(data[96..]).Ok?
            && data[..16] == c.destinationHash(c.identityHash(c.publicKeyOf(me)))
            && room >= 64 + DecodePayload(data[96..]).value.end
            && var end := DecodePayload(data[96..]).value.end;
               SignedBy(c, key, data[..16], data[16..32], data[32..96], data[96..], end,
                        c.sha256(data[..32] + [0x94] + data[97..96 + end]))
    ensures ParseLink(c, me, data, key, room).Ok? ==>
              var parts, view := DecodePayload(data[96..]).value, ParseLink(c, me, data, key, room).value;
              && view == View(c.sha256(data[..32] + [0x94] + data[97..96 + parts.end]), data[16..32], parts.ts,
                              parts.title, parts.content, data[96 + parts.fieldsAt..96 + parts.end])
  {
    hide DecodePayload;
    hide Verified;
    hide SignedBy;
    if |data| > 96 && DecodePayload(data[96..]).Ok? {
      var payload := data[96..];
      var parts := DecodePayload(payload).value;
      assert payload[1..parts.end] == data[97..96 + parts.end];
      assert payload[parts.fieldsAt..parts.end] == data[96 + parts.fieldsAt..96 + parts.end];
      assert data[..16] + data[16..32] == data[..32];
      if c.Delivery(key) == data[16..32] {
        VerifiedMeaning(c, data[..16], data[16..32], key, data[32..96], payload, parts);
      } else {
        NotItsSource(c, key, data[..16], data[16..32], data[32..96], payload, parts.end,
                     c.sha256(data[..32] + [0x94] + data[97..96 + parts.end]));
      }
    }
  }

  /** The refusals of `parse_link`, in the order of its checks. */
  lemma LinkRefusals(c: Crypto, me: key64, data: bytes, key: key64, room: nat)
    ensures |data| <= 96 ==> ParseLink(c, me, data, key, room) == Err(MalformedPayload)
    ensures |data| > 96 ==>
              var mine, its := c.destinationHash(c.identityHash(c.publicKeyOf(me))), c.destinationHash(c.identityHash(key));
              var r, parts := ParseLink(c, me, data, key, room), DecodePayload(data[96..]);
              && (r == Err(DestinationMismatch) <==> data[..16] != mine)
              && (r == Err(SourceHashMismatch) <==> data[..16] == mine && data[16..32] != its)
              && (data[..16] == mine && data[16..32] == its ==>
                    && (parts.Err? ==> r.Err? && r.error == parts.error)
                    && (parts.Ok? ==> (r == Err(OutputTooSmall) <==> room < 64 + parts.value.end))
                    && (parts.Ok? && room >= 64 + parts.value.end ==> r.Ok? || r.error == SignatureInvalid))
  {
    DecodeErrors(if |data| > 96 then data[96..] else []);
    hide DecodePayload;
    if |data| > 96 && DecodePayload(data[96..]).Ok? {
      var payload := data[96..];
      if c.Delivery(key) == data[16..32] {
        VerifiedMeaning(c, data[..16], data[16..32], key, data[32..96], payload, DecodePayload(payload).value);
      }
    }
    hide Verified;
    hide SignedBy;
  }

  /** Decoding has no errors but these. */
  lemma DecodeErrors(payload: bytes)
    ensures var r := DecodePayload(payload);
            r.Err? ==> r.error == MalformedPayload || r.error == DuplicateField || r.error == TooManyFields
  {
    hide ReadBin;
    hide SkipValue;
    if payload != [] && |payload| >= 10 && ReadBin(payload, 10).Ok? {
      var second := ReadBin(payload, 10).value.1;
      if ReadBin(payload, second).Ok? {
        var third := ReadBin(payload, second).value.1;
        if SkipValue(payload, third, 0).Ok? {
          FieldsErrors(payload[third..SkipValue(payload, third, 0).value]);
        }
      }
    }
    hide FieldsVerdict;
  }

  lemma FieldsErrors(fields: bytes)
    ensures var r := FieldsVerdict(fields);
            r.Err? ==> r.error == MalformedPayload || r.error == DuplicateField || r.error == TooManyFields
  {
    if ReadMapHeader(fields).Some? {
      var (first, count) := ReadMapHeader(fields).value;
      EntryErrors(IntegersOnly, fields, first, count, {});
    }
    hide CheckEntries;
  }

  lemma {:induction false} EntryErrors(rule: KeyRule, data: bytes, pos: nat, count: nat, seen: set<Key>)
    ensures var r := CheckEntries(rule, data, pos, count, seen);
            r.Err? ==> r.error == MalformedPayload || r.error == DuplicateField
    decreases count
  {
    hide SkipValue;
    hide ReadKey;
    if count > 0 && ReadKey(rule, data, pos).Some? {
      var (key, after) := ReadKey(rule, data, pos).value;
      if SkipValue(data, after, 0).Ok? {
        EntryErrors(rule, data, SkipValue(data, after, 0).value, count - 1, seen + {key});
      }
    }
  }

  /** A payload is malformed just when it is laid out as no trees, or its fields element is. */
  lemma PayloadRefusals(payload: bytes, error: LxmfError)
    ensures DecodePayload(payload) == Err(error)
       <==> || (error == MalformedPayload && !(exists ts, title, content, fields, end :: Laid(payload, ts, title, content, fields, end)))
            || (exists ts, title, content, fields, end :: LaidWith(payload, ts, title, content, fields, end, error))
  {
    hide DecodePayload;
    hide FieldsVerdict;
    hide WellFormed;
    hide Encode;
    hide Nesting;
    if ts, title, content, fields, end :| Laid(payload, ts, title, content, fields, end) {
      PayloadOfTrees(payload, ts, title, content, fields, end);
      assert DecodePayload(payload) == Err(error) ==> LaidWith(payload, ts, title, content, fields, end, error);
    } else if DecodePayload(payload) != Err(MalformedPayload) {
      var ts, title, content, fields, end := PayloadTrees(payload);
      assert false;
    }
    if ts, title, content, fields, end :| LaidWith(payload, ts, title, content, fields, end, error) {
      PayloadOfTrees(payload, ts, title, content, fields, end);
    }
  }

  ghost predicate LaidWith(
    payload: bytes, ts: timestamp, title: Value, content: Value, fields: Value, end: nat, error: LxmfError
  ) {
    && Laid(payload, ts, title, content, fields, end)
    && WellFormed(fields) && FieldsVerdict(Encode(fields)) == Err(error)
  }

  /** `parse_decrypted` accepts a plaintext just when it is long enough, laid out as the format
      says, within one packet, and signed by the named source for the reader itself. */
  lemma AcceptedDecrypted(c: Crypto, me: key64, plaintext: bytes, key: key64)
    requires c.Valid()
    ensures ParseDecrypted(c, me, plaintext, key).Ok?
       <==> && |plaintext| > 80 && DecodePayload(plaintext[80..]).Ok?
            && 80 + DecodePayload(plaintext[80..]).value.end <= c.maxPlaintext
            && var mine, end := c.destinationHash(c.identityHash(c.publicKeyOf(me))), DecodePayload(plaintext[80..]).value.end;
               SignedBy(c, key, mine, plaintext[..16], plaintext[16..80], plaintext[80..], end,
                        c.sha256(mine + plaintext[..16] + [0x94] + plaintext[81..80 + end]))
    ensures ParseDecrypted(c, me, plaintext, key).Ok? ==>
              var mine := c.destinationHash(c.identityHash(c.publicKeyOf(me)));
              var parts, view := DecodePayload(plaintext[80..]).value, ParseDecrypted(c, me, plaintext, key).value;
              view == View(c.sha256(mine + plaintext[..16] + [0x94] + plaintext[81..80 + parts.end]), plaintext[..16],
                           parts.ts, parts.title, parts.content, plaintext[80 + parts.fieldsAt..80 + parts.end])
  {
    hide DecodePayload;
    hide Verified;
    hide SignedBy;
    if |plaintext| > 80 && DecodePayload(plaintext[80..]).Ok? {
      var payload, mine := plaintext[80..], c.Delivery(c.publicKeyOf(me));
      var parts := DecodePayload(payload).value;
      assert payload[1..parts.end] == plaintext[81..80 + parts.end];
      assert payload[parts.fieldsAt..parts.end] == plaintext[80 + parts.fieldsAt..80 + parts.end];
      if c.Delivery(key) == plaintext[..16] {
        VerifiedMeaning(c, mine, plaintext[..16], key, plaintext[16..80], payload, parts);
      } else {
        NotItsSource(c, key, mine, plaintext[..16], plaintext[16..80], payload, parts.end,
                     c.sha256(mine + plaintext[..16] + [0x94] + plaintext[81..80 + parts.end]));
      }
    }
  }

  /** The refusals of `parse_decrypted`, in the order of its checks. */
  lemma DecryptedRefusals(c: Crypto, me: key64, plaintext: bytes, key: key64)
    requires c.Valid()
    ensures |plaintext| <= 80 ==> ParseDecrypted(c, me, plaintext, key) == Err(MalformedPayload)
    ensures |plaintext| > 80 ==>
              var r, parts := ParseDecrypted(c, me, plaintext, key), DecodePayload(plaintext[80..]);
              var its := c.destinationHash(c.identityHash(key));
              && (r == Err(SourceHashMismatch) <==> plaintext[..16] != its)
              && (plaintext[..16] == its ==>
                    && (parts.Err? ==> r.Err? && r.error == parts.error)
                    && (parts.Ok? ==> (r == Err(MalformedPayload) <==> 80 + parts.value.end > c.maxPlaintext))
                    && (parts.Ok? && 80 + parts.value.end <= c.maxPlaintext ==> r.Ok? || r.error == SignatureInvalid))
  {
    DecodeErrors(if |plaintext| > 80 then plaintext[80..] else []);
    hide DecodePayload;
    if |plaintext| > 80 && DecodePayload(plaintext[80..]).Ok? && c.Delivery(key) == plaintext[..16] {
      VerifiedMeaning(c, c.Delivery(c.publicKeyOf(me)), plaintext[..16], key, plaintext[16..80], plaintext[80..],
                      DecodePayload(plaintext[80..]).value);
    }
    hide Verified;
    hide SignedBy;
  }

  // ---- what a builder signs ----

  /** Both builders write the delivery destination of the signer and its signature over
      destination, source, payload and the hash of the three, which is the message id; they differ
      in the destination in front. */
  lemma BuiltIsSigned(c: Crypto, privateKey: key64, dest: hash16, payload: bytes)
    ensures var source := c.destinationHash(c.identityHash(c.publicKeyOf(privateKey)));
            var region := dest + source + payload;
            var rest := source + c.sign(privateKey, region + c.sha256(region)) + payload;
            && Packed(c, privateKey, dest, payload) == dest + rest
            && Plaintext(c, privateKey, dest, payload) == rest
            && MessageId(c, dest, source, payload) == c.sha256(region)
  {
    var source := c.Delivery(c.publicKeyOf(privateKey));
    var sig := c.sign(privateKey, Signed(c, dest, source, payload));
    assert dest + source + sig + payload == dest + (source + sig + payload);
  }
}
