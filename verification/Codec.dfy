/** The builders and parsers as the code runs them: over the caller's buffers, in place. */
module Codec {
  import opened Bytes
  import opened Walker
  import opened Readers
  import opened FieldMap
  import opened Validators
  import opened Encoder
  import opened Message

  /** `a[at..at + |src|].copy_from_slice(src)`. */
  method CopyInto(a: array<byte>, at: nat, src: bytes)
    requires at + |src| <= a.Length
    modifies a
    ensures a[..] == old(a[..at]) + src + old(a[at + |src|..])
    ensures a[..at] == old(a[..at]) && a[at..at + |src|] == src && a[at + |src|..] == old(a[at + |src|..])
  {
    forall i | 0 <= i < |src| {
      a[at + i] := src[i];
    }
    assert a[..] == a[..at] + a[at..at + |src|] + a[at + |src|..];
  }

  /** The payload a builder writes. */
  function PayloadText(ts: timestamp, title: bytes, content: bytes, fields: PayloadFields): bytes {
    PayloadContent(ts, Body(title), Body(content), fields)
  }

  predicate Encodable(title: bytes, content: bytes, fields: PayloadFields) {
    PayloadEncodable(Body(title), Body(content), fields)
  }

  /** Fill `scratch` with the signed region, after its payload was packed in place. */
  method SealSignedRegion(c: Crypto, dest: hash16, source: hash16, scratch: array<byte>, plen: nat) returns (id: digest)
    requires 64 + plen <= scratch.Length
    modifies scratch
    ensures id == MessageId(c, dest, source, old(scratch[32..32 + plen]))
    ensures scratch[..64 + plen] == Signed(c, dest, source, old(scratch[32..32 + plen]))
    ensures scratch[64 + plen..] == old(scratch[64 + plen..])
  {
    hide Message.Hashed;
    ghost var payload := scratch[32..32 + plen];
    WriteAddresses(scratch, dest, source, plen);
    HashedIs(dest, source, payload);
    id := c.sha256(scratch[..32 + plen]);
    ghost var s := scratch[..];
    CopyInto(scratch, 32 + plen, id);
    assert scratch[..64 + plen] == scratch[..32 + plen] + scratch[32 + plen..64 + plen];
    assert scratch[..32 + plen] == s[..32 + plen] && scratch[64 + plen..] == s[64 + plen..];
  }

  lemma HashedIs(dest: hash16, source: hash16, payload: bytes)
    ensures Hashed(dest, source, payload) == dest + source + payload
  {
  }

  /** Destination and source before a payload that is already in place. */
  method WriteAddresses(scratch: array<byte>, dest: hash16, source: hash16, plen: nat)
    requires 64 + plen <= scratch.Length
    modifies scratch
    ensures scratch[..32 + plen] == dest + source + old(scratch[32..32 + plen])
    ensures scratch[64 + plen..] == old(scratch[64 + plen..])
  {
    ghost var before := scratch[..];
    CopyInto(scratch, 0, dest);
    CopyInto(scratch, 16, source);
    PrefixExtends(before, dest, 16, source, scratch[..]);
    TwoAddresses(before, dest, source, plen, scratch[..]);
    assert scratch[..32 + plen] == scratch[..][..32 + plen] && scratch[64 + plen..] == scratch[..][64 + plen..];
    assert old(scratch[32..32 + plen]) == before[32..32 + plen];
  }

  lemma TwoAddresses(before: bytes, dest: hash16, source: hash16, plen: nat, after: bytes)
    requires 64 + plen <= |before| && after == dest + source + before[32..]
    ensures after[..32 + plen] == dest + source + before[32..32 + plen]
    ensures after[64 + plen..] == before[64 + plen..]
  {
    assert before[32..][..plen] == before[32..32 + plen];
    assert before[32..][32 + plen..] == before[64 + plen..];
  }

  /** What a link builder leaves in the caller's buffers: exactly the message in the first bytes
      of `out`, and the destination and message id. */
  ghost predicate LinkBuilt(
    c: Crypto, privateKey: key64, recipient: key64, text: bytes, n: nat,
    before: bytes, out: bytes, outDest: bytes, outId: bytes
  ) {
    && n == LXMF_PACKED_PREFIX + |text| <= |out| == |before|
    && out == Packed(c, privateKey, c.Delivery(recipient), text) + before[n..]
    && outDest == c.Delivery(recipient)
    && outId == MessageId(c, c.Delivery(recipient), c.Delivery(c.publicKeyOf(privateKey)), text)
  }

  /** `build_link_inner`: succeeds just when the payload can be encoded and both buffers hold
      it; then it writes exactly the message, and otherwise none of the results. */
  method BuildLink(
    c: Crypto, privateKey: key64, recipient: key64, ts: timestamp, title: bytes, content: bytes, fields: PayloadFields,
    out: array<byte>, scratch: array<byte>, outDest: array<byte>, outId: array<byte>
  )
    returns (r: Result<nat>)
    requires AllBodies(Body(title), Body(content), fields)
    requires outDest.Length == 16 && outId.Length == 32
    requires out != scratch && outDest != out && outDest != scratch && outId != out && outId != scratch && outId != outDest
    modifies out, scratch, outDest, outId
    ensures r.Ok? <==> && Encodable(title, content, fields)
                       && out.Length >= LXMF_PACKED_PREFIX + |PayloadText(ts, title, content, fields)|
                       && scratch.Length >= 64 + |PayloadText(ts, title, content, fields)|
    ensures r.Ok? ==> LinkBuilt(c, privateKey, recipient, PayloadText(ts, title, content, fields), r.value,
                                old(out[..]), out[..], outDest[..], outId[..])
    ensures r.Err? ==> out[..] == old(out[..]) && outDest[..] == old(outDest[..]) && outId[..] == old(outId[..])
    ensures r.Err? ==> r.error == if scratch.Length < 64 + 11 || out.Length < LXMF_PACKED_PREFIX + 11
                                  then OutputTooSmall else TooLong
  {
    ghost var text := PayloadText(ts, title, content, fields);
    PayloadIsLong(ts, title, content, fields);
    hide PayloadContent;
    hide PayloadEncodable;
    if scratch.Length < 64 + 11 || out.Length < LXMF_PACKED_PREFIX + 11 {
      return Err(OutputTooSmall);
    }
    var dest, source := c.Delivery(recipient), c.Delivery(c.publicKeyOf(privateKey));
    var packed := PackPayload(ts, title, content, fields, scratch, 32, scratch.Length - 32);
    if packed.Err? {
      return Err(TooLong);
    }
    var plen := packed.value;
    if out.Length < LXMF_PACKED_PREFIX + plen {
      return Err(TooLong);
    }
    assert scratch[32..32 + plen] == text;
    var id := SealSignedRegion(c, dest, source, scratch, plen);
    var sig := c.sign(privateKey, scratch[..64 + plen]);
    assert scratch[32..32 + plen] == text by {
      SignedHolds(c, dest, source, text);
      assert scratch[..64 + plen][32..32 + plen] == scratch[32..32 + plen];
    }
    hide Signed;
    WriteMessage(out, dest, source, sig, scratch[32..32 + plen]);
    CopyInto(outDest, 0, dest);
    CopyInto(outId, 0, id);
    return Ok(LXMF_PACKED_PREFIX + plen);
  }

  method WriteMessage(out: array<byte>, dest: hash16, source: hash16, sig: signature, payload: bytes)
    requires out.Length >= LXMF_PACKED_PREFIX + |payload|
    modifies out
    ensures out[..] == dest + source + sig + payload + old(out[96 + |payload|..])
  {
    ghost var s := out[..];
    CopyInto(out, 0, dest);
    CopyInto(out, 16, source);
    PrefixExtends(s, dest, 16, source, out[..]);
    CopyInto(out, 32, sig);
    PrefixExtends(s, dest + source, 32, sig, out[..]);
    CopyInto(out, LXMF_PACKED_PREFIX, payload);
    PrefixExtends(s, dest + source + sig, 96, payload, out[..]);
  }

  /** Copying behind a prefix that already replaces the start of `s` makes a longer prefix. */
  lemma PrefixExtends(s: bytes, prefix: bytes, at: nat, part: bytes, after: bytes)
    requires at == |prefix| && at + |part| <= |s|
    requires after == (prefix + s[at..])[..at] + part + (prefix + s[at..])[at + |part|..]
    ensures after == prefix + part + s[at + |part|..]
  {
    assert (prefix + s[at..])[..at] == prefix;
    assert (prefix + s[at..])[at + |part|..] == s[at..][|part|..] == s[at + |part|..];
  }

  lemma SignedHolds(c: Crypto, dest: hash16, source: hash16, text: bytes)
    ensures |Signed(c, dest, source, text)| == 64 + |text|
    ensures Signed(c, dest, source, text)[32..32 + |text|] == text
  {
    hide MessageId;
  }

  /** Every payload has its marker, its timestamp, two string headers and a map header. */
  lemma PayloadIsLong(ts: timestamp, title: bytes, content: bytes, fields: PayloadFields)
    requires AllBodies(Body(title), Body(content), fields)
    ensures Encodable(title, content, fields) ==> |PayloadText(ts, title, content, fields)| >= 15
  {
    if Encodable(title, content, fields) {
      SizeIsLength(ts, Body(title), Body(content), fields);
    }
    hide PayloadContent;
  }

  method WritePlaintext(out: array<byte>, source: hash16, sig: signature, payload: bytes)
    requires out.Length >= PLAINTEXT_PREFIX + |payload|
    modifies out
    ensures out[..] == source + sig + payload + old(out[80 + |payload|..])
  {
    ghost var s := out[..];
    CopyInto(out, 0, source);
    CopyInto(out, 16, sig);
    PrefixExtends(s, source, 16, sig, out[..]);
    CopyInto(out, PLAINTEXT_PREFIX, payload);
    PrefixExtends(s, source + sig, 80, payload, out[..]);
  }

  /** What the packet builder leaves in the caller's buffers. */
  ghost predicate PlaintextBuilt(
    c: Crypto, privateKey: key64, recipient: key64, text: bytes, n: nat,
    before: bytes, out: bytes, outDest: bytes, outId: bytes
  ) {
    && n == PLAINTEXT_PREFIX + |text| <= |out| == |before|
    && out == Plaintext(c, privateKey, c.Delivery(recipient), text) + before[n..]
    && outDest == c.Delivery(recipient)
    && outId == MessageId(c, c.Delivery(recipient), c.Delivery(c.publicKeyOf(privateKey)), text)
  }

  /** `build_plaintext`, over a payload buffer of one packet. */
  method BuildPlaintext(
    c: Crypto, privateKey: key64, recipient: key64, ts: timestamp, title: bytes, content: bytes, fields: PayloadFields,
    out: array<byte>, outDest: array<byte>, outId: array<byte>
  )
    returns (r: Result<nat>)
    requires c.Valid() && AllBodies(Body(title), Body(content), fields) && FewFields(fields)
    requires outDest.Length == 16 && outId.Length == 32 && outDest != out && outId != out && outId != outDest
    modifies out, outDest, outId
    ensures r.Ok? <==> && Encodable(title, content, fields)
                       && |PayloadText(ts, title, content, fields)| <= c.MaxPayload()
                       && out.Length >= PLAINTEXT_PREFIX + |PayloadText(ts, title, content, fields)|
    ensures r.Ok? ==> PlaintextBuilt(c, privateKey, recipient, PayloadText(ts, title, content, fields), r.value,
                                     old(out[..]), out[..], outDest[..], outId[..])
    ensures r.Err? ==> r.error == TooLong
    ensures r.Err? ==> out[..] == old(out[..]) && outDest[..] == old(outDest[..]) && outId[..] == old(outId[..])
  {
    ghost var text := PayloadText(ts, title, content, fields);
    hide PayloadContent;
    hide PayloadEncodable;
    var dest, source := c.Delivery(recipient), c.Delivery(c.publicKeyOf(privateKey));
    var payload := new byte[c.MaxPayload()](_ => 0);
    var packed := PackPayload(ts, title, content, fields, payload, 0, payload.Length);
    if packed.Err? {
      return Err(if packed.error == OutputTooSmall then TooLong else packed.error);
    }
    var plen := packed.value;
    var signed := new byte[64 + c.MaxPayload()](_ => 0);
    CopyInto(signed, 32, payload[..plen]);
    assert signed[32..32 + plen] == text;
    var id := SealSignedRegion(c, dest, source, signed, plen);
    var sig := c.sign(privateKey, signed[..64 + plen]);
    if PLAINTEXT_PREFIX + plen > out.Length || PLAINTEXT_PREFIX + plen > c.maxPlaintext {
      return Err(TooLong);
    }
    assert payload[..plen] == text;
    WritePlaintext(out, source, sig, payload[..plen]);
    CopyInto(outDest, 0, dest);
    CopyInto(outId, 0, id);
    return Ok(PLAINTEXT_PREFIX + plen);
  }

  // ---- parsing ----

  /** The decoding that both parsers do. */
  method Decode(payload: bytes, fieldScratch: LxmfFieldScratch) returns (r: Result<Parts>)
    requires fieldScratch.Valid()
    modifies fieldScratch.keys
    ensures r == DecodePayload(payload)
  {
    hide ReadBin;
    hide SkipValue;
    hide FieldsVerdict;
    if payload == [] || !(0x90 <= payload[0] <= 0x9f) {
      return Err(MalformedPayload);
    }
    if payload[0] % 16 < 4 {
      return Err(MalformedPayload);
    }
    if |payload| < 10 || payload[1] != 0xcb {
      return Err(MalformedPayload);
    }
    var ts: timestamp := payload[2..10];
    var title :- ReadBin(payload, 10);
    var content :- ReadBin(payload, title.1);
    var end :- SkipValue(payload, content.1, 0);
    var verdict, _ := ValidateFields(payload[content.1..end], fieldScratch);
    if verdict.Err? {
      return Err(verdict.error);
    }
    return Ok(Parts(ts, title.0, content.0, content.1, end));
  }

  /** Copy the signed region, rebuilt with a four-element marker, and verify over it. */
  method VerifyOver(
    c: Crypto, dest: hash16, source: hash16, sourceKey: key64, sig: signature, payload: bytes, parts: Parts,
    scratch: array<byte>
  )
    returns (r: Result<View>)
    requires DecodePayload(payload) == Ok(parts) && scratch.Length >= 64 + parts.end
    modifies scratch
    ensures r == Verified(c, dest, source, sourceKey, sig, payload, parts)
  {
    hide DecodePayload;
    ghost var text := FourElements(payload, parts.end);
    CopyInto(scratch, 32, payload[..parts.end]);
    scratch[32] := 0x94;
    assert scratch[32..32 + parts.end] == text;
    var id := SealSignedRegion(c, dest, source, scratch, parts.end);
    if !c.validKey(SigningKey(sourceKey)) {
      return Err(SignatureInvalid);
    }
    if !c.verify(SigningKey(sourceKey), scratch[..64 + parts.end], sig) {
      return Err(SignatureInvalid);
    }
    return Ok(View(id, source, parts.ts, parts.title, parts.content, payload[parts.fieldsAt..parts.end]));
  }

  /** `parse_link`: the scratch buffers are working memory only; the answer is a function of the
      message, the keys and the room in scratch. */
  method ParseLinkMessage(
    c: Crypto, me: key64, data: bytes, sourceKey: key64, scratch: array<byte>, fieldScratch: LxmfFieldScratch
  )
    returns (r: Result<View>)
    requires fieldScratch.Valid()
    modifies scratch, fieldScratch.keys
    ensures r == ParseLink(c, me, data, sourceKey, scratch.Length)
  {
    hide DecodePayload;
    hide Verified;
    if |data| < LXMF_PACKED_PREFIX + 1 {
      return Err(MalformedPayload);
    }
    if data[..16] != c.Delivery(c.publicKeyOf(me)) {
      return Err(DestinationMismatch);
    }
    if c.Delivery(sourceKey) != data[16..32] {
      return Err(SourceHashMismatch);
    }
    var payload := data[96..];
    var parts :- Decode(payload, fieldScratch);
    if scratch.Length < 64 + parts.end {
      return Err(OutputTooSmall);
    }
    r := VerifyOver(c, data[..16], data[16..32], sourceKey, data[32..96], payload, parts, scratch);
  }

  /** `parse_decrypted`, with working memory of its own for one packet. */
  method ParseDecryptedMessage(
    c: Crypto, me: key64, plaintext: bytes, sourceKey: key64, fieldScratch: LxmfFieldScratch
  )
    returns (r: Result<View>)
    requires fieldScratch.Valid()
    modifies fieldScratch.keys
    ensures r == ParseDecrypted(c, me, plaintext, sourceKey)
  {
    hide DecodePayload;
    hide Verified;
    if |plaintext| < PLAINTEXT_PREFIX + 1 {
      return Err(MalformedPayload);
    }
    if c.Delivery(sourceKey) != plaintext[..16] {
      return Err(SourceHashMismatch);
    }
    var payload := plaintext[80..];
    var parts :- Decode(payload, fieldScratch);
    if parts.end > c.MaxPayload() {
      return Err(MalformedPayload);
    }
    var signed := new byte[64 + c.MaxPayload()](_ => 0);
    r := VerifyOver(c, c.Delivery(c.publicKeyOf(me)), plaintext[..16], sourceKey, plaintext[16..80], payload, parts,
                    signed);
  }
}
