/** Signed messages: what the builders produce and what the parsers answer, as functions. */
module Message {
  import opened Bytes
  import opened MessagePack
  import opened Walker
  import opened Readers
  import opened FieldMap
  import opened Encoder

  type hash16 = s: bytes | |s| == 16 witness seq(16, _ => 0)
  type key32 = s: bytes | |s| == 32 witness seq(32, _ => 0)
  type digest = s: bytes | |s| == 32 witness seq(32, _ => 0)
  type signature = s: bytes | |s| == 64 witness seq(64, _ => 0)
  type key64 = s: bytes | |s| == 64 witness seq(64, _ => 0)

  const PLAINTEXT_PREFIX: nat := 80

  /** The primitives of the crates this one is built on, as unknown functions. `destinationHash`
      is the `lxmf.delivery` destination of an identity; `maxPlaintext` is the largest plaintext
      of one packet, which leaves room for the prefix. */
  datatype Crypto = Crypto(
    sha256: bytes -> digest,
    identityHash: key64 -> hash16,
    destinationHash: hash16 -> hash16,
    publicKeyOf: key64 -> key64,
    sign: (key64, bytes) -> signature,
    validKey: key32 -> bool,
    verify: (key32, bytes, signature) -> bool,
    maxPlaintext: nat
  ) {
    predicate Valid() {
      maxPlaintext >= PLAINTEXT_PREFIX
    }

    /** The delivery destination of whoever holds this public key. */
    function Delivery(publicKey: key64): hash16 {
      destinationHash(identityHash(publicKey))
    }

    function MaxPayload(): nat {
      if maxPlaintext >= PLAINTEXT_PREFIX then maxPlaintext - PLAINTEXT_PREFIX else 0
    }
  }

  function SigningKey(publicKey: key64): key32 {
    publicKey[32..]
  }

  /** The one assumption on signatures, section 5.1 of RFC 8032: what a private key signs, its
      public key verifies. */
  ghost predicate KeysMatch(c: Crypto, privateKey: key64) {
    var key := SigningKey(c.publicKeyOf(privateKey));
    c.validKey(key) && forall m: bytes :: c.verify(key, m, c.sign(privateKey, m))
  }

  // ---- building ----

  /** The bytes that are hashed into the message id. */
  function Hashed(dest: hash16, source: hash16, payload: bytes): bytes {
    dest + source + payload
  }

  function MessageId(c: Crypto, dest: hash16, source: hash16, payload: bytes): digest {
    c.sha256(Hashed(dest, source, payload))
  }

  function Signed(c: Crypto, dest: hash16, source: hash16, payload: bytes): bytes {
    Hashed(dest, source, payload) + MessageId(c, dest, source, payload)
  }

  /** `source || signature || payload`: what one opportunistic packet carries. */
  function Plaintext(c: Crypto, privateKey: key64, dest: hash16, payload: bytes): bytes {
    var source := c.Delivery(c.publicKeyOf(privateKey));
    source + c.sign(privateKey, Signed(c, dest, source, payload)) + payload
  }

  /** `dest || source || signature || payload`: what a link or a resource carries. */
  function Packed(c: Crypto, privateKey: key64, dest: hash16, payload: bytes): bytes {
    var source := c.Delivery(c.publicKeyOf(privateKey));
    dest + source + c.sign(privateKey, Signed(c, dest, source, payload)) + payload
  }

  // ---- parsing ----

  datatype View = View(
    messageId: digest,
    sourceHash: hash16,
    ts: timestamp,
    title: bytes,
    content: bytes,
    fields: bytes
  )

  datatype Parts = Parts(ts: timestamp, title: bytes, content: bytes, fieldsAt: nat, end: nat)

  /** The first four elements of the payload array; the rest is not looked at. */
  function DecodePayload(payload: bytes): (r: Result<Parts>)
    ensures r.Ok? ==> payload != [] && 0x90 <= payload[0] <= 0x9f && 10 < r.value.fieldsAt < r.value.end <= |payload|
  {
    if payload == [] || !(0x90 <= payload[0] <= 0x9f) then Err(MalformedPayload)
    else if payload[0] % 16 < 4 then Err(MalformedPayload)
    else if |payload| < 10 || payload[1] != 0xcb then Err(MalformedPayload)
    else
      var ts: timestamp := payload[2..10];
      var (title, afterTitle) :- ReadBin(payload, 10);
      var (content, afterContent) :- ReadBin(payload, afterTitle);
      var afterFields :- SkipValue(payload, afterContent, 0);
      var _ :- FieldsVerdict(payload[afterContent..afterFields]);
      Ok(Parts(ts, title, content, afterContent, afterFields))
  }

  /** The first four elements with the array marker forced to four: the signed region. */
  function FourElements(payload: bytes, end: nat): bytes
    requires 1 <= end <= |payload|
  {
    [0x94] + payload[1..end]
  }

  /** The signature check, and the view of a message that passes it. */
  function Verified(
    c: Crypto, dest: hash16, source: hash16, sourceKey: key64, sig: signature, payload: bytes, parts: Parts
  ): Result<View>
    requires DecodePayload(payload) == Ok(parts)
  {
    var text := FourElements(payload, parts.end);
    if !c.validKey(SigningKey(sourceKey)) then Err(SignatureInvalid)
    else if !c.verify(SigningKey(sourceKey), Signed(c, dest, source, text), sig) then Err(SignatureInvalid)
    else
      Ok(View(MessageId(c, dest, source, text), source, parts.ts, parts.title, parts.content,
              payload[parts.fieldsAt..parts.end]))
  }

  /** `parse_link`, for the holder of `me`, with `room` bytes of scratch. */
  function ParseLink(c: Crypto, me: key64, data: bytes, sourceKey: key64, room: nat): Result<View> {
    if |data| < LXMF_PACKED_PREFIX + 1 then
      Err(MalformedPayload)
    else if data[..16] != c.Delivery(c.publicKeyOf(me)) then
      Err(DestinationMismatch)
    else if c.Delivery(sourceKey) != data[16..32] then
      Err(SourceHashMismatch)
    else
      var payload := data[96..];
      var parts :- DecodePayload(payload);
      if room < 64 + parts.end then Err(OutputTooSmall)
      else Verified(c, data[..16], data[16..32], sourceKey, data[32..96], payload, parts)
  }

  /** `parse_decrypted`, for the holder of `me`. */
  function ParseDecrypted(c: Crypto, me: key64, plaintext: bytes, sourceKey: key64): Result<View> {
    if |plaintext| < PLAINTEXT_PREFIX + 1 then
      Err(MalformedPayload)
    else if c.Delivery(sourceKey) != plaintext[..16] then
      Err(SourceHashMismatch)
    else
      var payload := plaintext[80..];
      var parts :- DecodePayload(payload);
      if parts.end > c.MaxPayload() then Err(MalformedPayload)
      else Verified(c, c.Delivery(c.publicKeyOf(me)), plaintext[..16], sourceKey, plaintext[16..80], payload, parts)
  }

  // ---- one wire format ----

  /** The two parsers answer alike, error for error, on one message with and without its
      destination. */
  lemma OneWireFormat(c: Crypto, me: key64, plaintext: bytes, sourceKey: key64, room: nat)
    requires |plaintext| <= c.maxPlaintext && room >= 64 + |plaintext|
    ensures ParseDecrypted(c, me, plaintext, sourceKey)
         == ParseLink(c, me, c.Delivery(c.publicKeyOf(me)) + plaintext, sourceKey, room)
  {
    hide DecodePayload;
    hide Verified;
    var data := c.Delivery(c.publicKeyOf(me)) + plaintext;
    if |plaintext| >= PLAINTEXT_PREFIX + 1 {
      assert data[16..32] == plaintext[..16];
      assert data[32..96] == plaintext[16..80];
      assert data[96..] == plaintext[80..];
    }
  }

  lemma OnePackedFormat(c: Crypto, privateKey: key64, dest: hash16, payload: bytes)
    ensures Packed(c, privateKey, dest, payload) == dest + Plaintext(c, privateKey, dest, payload)
  {
  }

  // ---- what follows the fields does not matter ----

  lemma ReadBinLocal(data: bytes, pos: nat, other: bytes)
    requires ReadBin(data, pos).Ok?
    requires At(other, pos, data[pos..ReadBin(data, pos).value.1])
    ensures ReadBin(other, pos) == ReadBin(data, pos)
  {
    var v := StringAtReadBin(data, pos);
    hide ReadBin;
    hide Encode;
    hide WellFormed;
    ReadBinOfString(other, pos, v);
    ReadBinOfString(data, pos, v);
  }

  lemma SubAt(data: bytes, pos: nat, end: nat, other: bytes, a: nat, b: nat)
    requires pos <= a <= b <= end <= |data| && At(other, pos, data[pos..end])
    ensures At(other, a, data[a..b])
  {
    var part := data[pos..end];
    forall k | 0 <= k < b - a
      ensures other[a..b][k] == data[a..b][k]
    {
      assert other[a + k] == other[pos..pos + |part|][a + k - pos] == part[a + k - pos] == data[a + k];
    }
  }

  /** Payloads that agree from the second byte to the end of the fields, under any array marker
      of four or more elements, have the same parts. */
  lemma DecodeLocal(payload: bytes, other: bytes)
    requires DecodePayload(payload).Ok? && other != [] && 0x94 <= other[0] <= 0x9f
    requires At(other, 1, payload[1..DecodePayload(payload).value.end])
    ensures DecodePayload(other) == DecodePayload(payload)
  {
    var end := DecodePayload(payload).value.end;
    var (title, afterTitle) := ReadBin(payload, 10).value;
    var (content, afterContent) := ReadBin(payload, afterTitle).value;
    SubAt(payload, 1, end, other, 1, 2);
    SubAt(payload, 1, end, other, 2, 10);
    SubAt(payload, 1, end, other, 10, afterTitle);
    SubAt(payload, 1, end, other, afterTitle, afterContent);
    SubAt(payload, 1, end, other, afterContent, end);
    ReadBinLocal(payload, 10, other);
    ReadBinLocal(payload, afterTitle, other);
    SkipLocal(payload, afterContent, 0, other, afterContent, 0);
    assert other[1..2][0] == payload[1..2][0];
    hide ReadBin;
    hide SkipValue;
    hide FieldsVerdict;
  }

  lemma FourElementsLocal(payload: bytes, other: bytes, start: nat, end: nat)
    requires 1 <= start <= end <= |payload| && At(other, 1, payload[1..end])
    ensures FourElements(other, end) == FourElements(payload, end) && other[start..end] == payload[start..end]
  {
    SubAt(payload, 1, end, other, start, end);
  }

  lemma VerifiedLocal(
    c: Crypto, dest: hash16, source: hash16, sourceKey: key64, sig: signature, payload: bytes, other: bytes, parts: Parts
  )
    requires DecodePayload(payload) == Ok(parts) && other != [] && 0x94 <= other[0] <= 0x9f
    requires At(other, 1, payload[1..parts.end])
    ensures DecodePayload(other) == Ok(parts)
    ensures Verified(c, dest, source, sourceKey, sig, other, parts)
         == Verified(c, dest, source, sourceKey, sig, payload, parts)
  {
    DecodeLocal(payload, other);
    FourElementsLocal(payload, other, parts.fieldsAt, parts.end);
    hide DecodePayload;
    hide Signed;
    hide MessageId;
    hide FourElements;
    hide At;
  }

  /** A message that differs from an accepted one only in its array marker and in what follows
      its fields is accepted with the same view. */
  lemma StampTransparency(
    c: Crypto, me: key64, data: bytes, sourceKey: key64, room: nat, marker: byte, suffix: bytes, other: bytes
  )
    requires ParseLink(c, me, data, sourceKey, room).Ok? && 0x94 <= marker <= 0x9f
    requires var end := 96 + DecodePayload(data[96..]).value.end;
             other == data[..96] + [marker] + data[97..end] + suffix
    ensures ParseLink(c, me, other, sourceKey, room) == ParseLink(c, me, data, sourceKey, room)
  {
    hide DecodePayload;
    hide Verified;
    var payload, rest := data[96..], other[96..];
    var end := DecodePayload(payload).value.end;
    assert rest == [marker] + payload[1..end] + suffix;
    assert rest[1..end] == payload[1..end];
    assert other[..16] == data[..16] && other[16..32] == data[16..32] && other[32..96] == data[32..96];
    VerifiedLocal(c, data[..16], data[16..32], sourceKey, data[32..96], payload, rest, DecodePayload(payload).value);
  }
}
