/** One whole exchange, as the documentation of `seal_opportunistic` runs it: build, stamp with a
    ticket, seal. What comes out is what its recipient reads. */
module Exchange {
  import opened Bytes
  import opened Walker
  import opened FieldMap
  import opened FieldSet
  import opened Encoder
  import opened Message
  import opened Codec
  import opened FieldMessages
  import opened RoundTrip
  import opened Delivery
  import opened Authenticity
  import opened Lifecycle

  /** `ticket_stamp`: the first half of the hash of the ticket and the message id. */
  function TicketStamp(c: Crypto, ticket: hash16, id: digest): hash16 {
    c.sha256(ticket + id)[..16]
  }

  /** Everything but the cipher agrees to send: the message is admitted and fits both buffers, its
      values are complete at depth 2, and with its stamp it fits one packet. */
  predicate Sendable(
    c: Crypto, e: Ecies, usizeMax: nat, titleLen: nat, contentLen: nat, fields: seq<EncodedField>, room: nat, scratch: nat
  ) {
    && PackedSize(usizeMax, titleLen, contentLen, fields).Ok?
    && AllDeeper(fields)
    && var n := PackedSize(usizeMax, titleLen, contentLen, fields).value;
       n + 18 <= room && scratch + 32 >= n && SealSize(c, e, room, n + 18).Ok?
  }

  lemma SizeFacts(usizeMax: nat, title: bytes, content: bytes, fields: seq<EncodedField>)
    requires PackedSize(usizeMax, |title|, |content|, fields).Ok?
    ensures Admit(fields).Ok? && |fields| <= MAX_FIELDS && |title| <= U32_MAX && |content| <= U32_MAX
  {
    AdmitMeaning(fields);
    hide Admit;
    hide PackedCount;
  }

  lemma BuiltStart(
    c: Crypto, privateKey: key64, recipient: key64, text: bytes, n: nat, before: bytes, out: bytes, outDest: bytes, outId: bytes
  )
    requires LinkBuilt(c, privateKey, recipient, text, n, before, out, outDest, outId)
    ensures n <= |out| && n == 96 + |text| && out[..n] == Packed(c, privateKey, c.Delivery(recipient), text)
    ensures var message := Packed(c, privateKey, c.Delivery(recipient), text);
            |message| == n && out[16..96] == message[16..96] && (96 < n ==> out[97..n] == message[97..])
    ensures outId == c.sha256(c.destinationHash(c.identityHash(recipient))
                              + c.destinationHash(c.identityHash(c.publicKeyOf(privateKey))) + text)
  {
    PackedLayout(c, privateKey, c.Delivery(recipient), text, Packed(c, privateKey, c.Delivery(recipient), text));
    BuiltIsSigned(c, privateKey, c.Delivery(recipient), text);
    hide Packed;
    hide MessageId;
  }

  lemma TicketStampIs(c: Crypto, ticket: hash16, id: digest)
    ensures TicketStamp(c, ticket, id) == c.sha256(ticket + id)[..16]
  {
  }

  lemma BuiltId(
    c: Crypto, privateKey: key64, me: key64, ts: timestamp, title: bytes, content: bytes, fields: seq<EncodedField>
  )
    requires |fields| <= MAX_FIELDS
    ensures BuiltView(c, privateKey, me, ts, title, content, fields).messageId
         == c.sha256(c.destinationHash(c.identityHash(c.publicKeyOf(me)))
                     + c.destinationHash(c.identityHash(c.publicKeyOf(privateKey))) + MessageText(ts, title, content, fields))
  {
    hide MessageText;
    hide FieldsText;
  }

  lemma SealSucceeds(c: Crypto, e: Ecies, buffer: bytes, n: nat, total: nat, recipient: key64, ratchet: Option<key32>, ephemeral: key32, iv: iv16)
    requires e.Valid() && e.Succeeds() && SealVerdict(c, e, buffer, n, recipient) == Ok(total)
    ensures 16 <= n <= |buffer| && e.plaintextOffset + (n - 16) <= total <= |buffer|
    ensures SealedFrame(c, e, buffer, n, total, recipient, ratchet, ephemeral, iv).0.Ok?
  {
    hide SkipValue;
  }

  /** Stamping and sealing a built message that fills the start of `buffer`. */
  method StampAndSeal(
    c: Crypto, e: Ecies, ghost privateKey: key64, recipient: key64, ghost ts: timestamp, ghost title: bytes,
    ghost content: bytes, ghost fields: seq<EncodedField>, stamp: hash16, ratchet: Option<key32>, ephemeral: key32, iv: iv16,
    buffer: array<byte>, n: nat, ghost me: key64, ghost secret: key32
  )
    returns (r: Result<nat>)
    requires KeysMatch(c, privateKey) && e.Valid() && e.Opens() && recipient == c.publicKeyOf(me)
    requires e.publicOf(secret) == match ratchet case Some(key) => key case None => recipient[..32]
    requires Admit(fields).Ok? && |title| <= U32_MAX && |content| <= U32_MAX && |fields| <= MAX_FIELDS
    requires LXMF_PACKED_PREFIX < n <= buffer.Length
    requires buffer[..n] == Packed(c, privateKey, c.Delivery(recipient), MessageText(ts, title, content, fields))
    modifies buffer
    ensures r.Ok? ==>
              && r.value <= buffer.Length
              && OpensTo(c, e, me, c.publicKeyOf(privateKey), secret, buffer[..r.value],
                         old(buffer[16..96]) + [0x95] + old(buffer[97..n]) + [0xc4, 16] + stamp,
                         BuiltView(c, privateKey, me, ts, title, content, fields))
    ensures var ready := AllDeeper(fields) && n + 18 <= buffer.Length && SealSize(c, e, buffer.Length, n + 18).Ok?;
            (r.Ok? ==> ready) && (ready && e.Succeeds() ==> r.Ok?)
  {
    hide *;
    Constants();
    ghost var before := buffer[..];
    assert before[..n] == buffer[..n];
    StampAcceptsBuilt(c, privateKey, c.Delivery(recipient), ts, title, content, fields, before, n, 16);
    var stamped := AppendRecipientStamp(buffer, n, stamp);
    if stamped.Err? {
      return Err(stamped.error);
    }
    var end := stamped.value;
    ghost var message := buffer[..];
    StampedFits(before, n, stamp, message);
    DestinationFirst(c, privateKey, c.Delivery(recipient), MessageText(ts, title, content, fields), before, n);
    SealAcceptsStamped(c, e, before, n, stamp, recipient, message, end);
    r := SealOpportunistic(c, e, buffer, end, recipient, ratchet, ephemeral, iv);
    if SealVerdict(c, e, message, end, recipient).Ok? {
      ghost var total := SealVerdict(c, e, message, end, recipient).value;
      EndToEnd(c, e, privateKey, me, ts, title, content, fields, stamp, message, end, total, ratchet, ephemeral, iv, secret);
      if e.Succeeds() {
        SealSucceeds(c, e, message, end, total, recipient, ratchet, ephemeral, iv);
      }
      FrameFirst(c, e, message, end, total, recipient, ratchet, ephemeral, iv, buffer[..]);
      assert r.Ok? ==> buffer[..][..total] == buffer[..total];
    }
  }

  lemma StampedFits(before: bytes, n: nat, stamp: hash16, after: bytes)
    requires LXMF_PACKED_PREFIX < n && n + 18 <= |before|
    requires after == Stamped(before[..n], stamp) + before[n + 18..]
    ensures |after| == |before| && after[..n + 18] == Stamped(before[..n], stamp)
    ensures after[16..n + 18] == before[16..96] + [0x95] + before[97..n] + [0xc4, 16] + stamp
  {
    assert after[16..n + 18] == after[..n + 18][16..];
  }

  lemma DestinationFirst(c: Crypto, privateKey: key64, dest: hash16, text: bytes, buffer: bytes, n: nat)
    requires 96 < n <= |buffer| && buffer[..n] == Packed(c, privateKey, dest, text)
    ensures buffer[..16] == dest
  {
    PackedLayout(c, privateKey, dest, text, buffer[..n]);
    hide Packed;
    assert buffer[..16] == buffer[..n][..16];
  }

  lemma FrameFirst(
    c: Crypto, e: Ecies, buffer: bytes, n: nat, total: nat, recipient: key64, ratchet: Option<key32>, ephemeral: key32,
    iv: iv16, after: bytes
  )
    requires e.Valid() && 16 <= n <= |buffer| && e.plaintextOffset + (n - 16) <= total <= |buffer|
    requires var sealed := SealedFrame(c, e, buffer, n, total, recipient, ratchet, ephemeral, iv);
             after == sealed.1 + buffer[total..]
    ensures |after| == |buffer|
    ensures after[..total] == SealedFrame(c, e, buffer, n, total, recipient, ratchet, ephemeral, iv).1
  {
  }

  /** Sends just when it can, if the cipher does; and the holder of the ratchet's secret, or of
      the base key when there is no ratchet, opens what was sent and reads what was built. */
  method BuildStampSeal(
    c: Crypto, e: Ecies, privateKey: key64, recipient: key64, ts: timestamp, title: bytes, content: bytes,
    fields: seq<EncodedField>, ticket: hash16, ratchet: Option<key32>, ephemeral: key32, iv: iv16, usizeMax: nat,
    buffer: array<byte>, scratch: array<byte>, outDest: array<byte>, outId: array<byte>, ghost me: key64, ghost secret: key32
  )
    returns (r: Result<nat>)
    requires KeysMatch(c, privateKey) && e.Valid() && e.Opens() && recipient == c.publicKeyOf(me)
    requires e.publicOf(secret) == match ratchet case Some(key) => key case None => recipient[..32]
    requires buffer.Length <= usizeMax && LXMF_PACKED_PREFIX <= usizeMax
    requires outDest.Length == 16 && outId.Length == 32 && buffer != scratch
    requires outDest != buffer && outDest != scratch && outId != buffer && outId != scratch && outId != outDest
    modifies buffer, scratch, outDest, outId
    ensures r.Ok? ==>
              && r.value <= buffer.Length && |fields| <= MAX_FIELDS
              && var view := BuiltView(c, privateKey, me, ts, title, content, fields);
                 var message := Packed(c, privateKey, c.Delivery(recipient), MessageText(ts, title, content, fields));
                 && |message| > 96
                 && OpensTo(c, e, me, c.publicKeyOf(privateKey), secret, buffer[..r.value],
                            message[16..96] + [0x95] + message[97..] + [0xc4, 16] + c.sha256(ticket + view.messageId)[..16],
                            view)
    ensures r.Ok? ==> Sendable(c, e, usizeMax, |title|, |content|, fields, buffer.Length, scratch.Length)
    ensures Sendable(c, e, usizeMax, |title|, |content|, fields, buffer.Length, scratch.Length) && e.Succeeds() ==> r.Ok?
  {
    hide *;
    Constants();
    var built := BuildLinkWithFields(c, privateKey, recipient, ts, title, content, fields, usizeMax, buffer, scratch, outDest, outId);
    SendableIs(c, e, usizeMax, |title|, |content|, fields, buffer.Length, scratch.Length);
    if built.Err? {
      return Err(built.error);
    }
    var n := built.value;
    SizeFacts(usizeMax, title, content, fields);
    BuiltStart(c, privateKey, recipient, MessageText(ts, title, content, fields), n, old(buffer[..]), buffer[..], outDest[..], outId[..]);
    MessageLayout(ts, title, content, fields, MessageText(ts, title, content, fields));
    assert buffer[..][..n] == buffer[..n];
    var stamp := TicketStamp(c, ticket, outId[..]);
    TicketStampIs(c, ticket, outId[..]);
    BuiltId(c, privateKey, me, ts, title, content, fields);
    assert buffer[..][16..96] == buffer[16..96] && buffer[..][97..n] == buffer[97..n];
    r := StampAndSeal(c, e, privateKey, recipient, ts, title, content, fields, stamp, ratchet, ephemeral, iv, buffer, n, me, secret);
  }

  lemma SendableIs(
    c: Crypto, e: Ecies, usizeMax: nat, titleLen: nat, contentLen: nat, fields: seq<EncodedField>, room: nat, scratch: nat
  )
    ensures Sendable(c, e, usizeMax, titleLen, contentLen, fields, room, scratch)
       <==> && PackedSize(usizeMax, titleLen, contentLen, fields).Ok?
            && AllDeeper(fields)
            && var n := PackedSize(usizeMax, titleLen, contentLen, fields).value;
               n + 18 <= room && scratch + 32 >= n && SealSize(c, e, room, n + 18).Ok?
  {
  }
}
