/** Build, then stamp, then seal: when each step accepts what the one before it made. */
module Lifecycle {
  import opened Bytes
  import opened MessagePack
  import opened Walker
  import opened FieldMap
  import opened FieldSet
  import opened Encoder
  import opened Message
  import opened FieldMessages
  import opened RoundTrip
  import opened ArrayLists
  import opened Delivery
  import opened Authenticity
  import opened Sealing

  predicate AllDeeper(fields: seq<EncodedField>) {
    forall i :: 0 <= i < |fields| ==> Deeper(fields[i].value)
  }

  /** The payload of a built message is one complete array just when every value is complete at
      depth 2 as well. */
  lemma BuiltIsFramed(
    c: Crypto, privateKey: key64, dest: hash16, ts: timestamp, title: bytes, content: bytes,
    fields: seq<EncodedField>, buffer: bytes, n: nat
  )
    requires Admit(fields).Ok? && |title| <= U32_MAX && |content| <= U32_MAX && |fields| <= MAX_FIELDS
    requires n <= |buffer| && buffer[..n] == Packed(c, privateKey, dest, MessageText(ts, title, content, fields))
    ensures n > LXMF_PACKED_PREFIX && buffer[LXMF_PACKED_PREFIX] == 0x94 && buffer[..16] == dest
    ensures SkipValue(buffer[..n], LXMF_PACKED_PREFIX, 0)
         == if AllDeeper(fields) then Ok(n) else Err(MalformedPayload)
  {
    hide *;
    Constants();
    var text := MessageText(ts, title, content, fields);
    PackedLayout(c, privateKey, dest, text, buffer[..n]);
    MessageLayout(ts, title, content, fields, text);
    assert buffer[..n][96..] == buffer[96..n] && buffer[..n][..16] == buffer[..16];
    assert buffer[96] == buffer[96..n][0];
    var v := MessageTree(ts, title, content, fields);
    BuiltFraming(buffer, n, text, v);
  }

  lemma Constants()
    ensures LXMF_PACKED_PREFIX == 96 && MAX_DEPTH == 8
  {
  }

  lemma MessageTree(ts: timestamp, title: bytes, content: bytes, fields: seq<EncodedField>) returns (v: Value)
    requires Admit(fields).Ok? && |title| <= U32_MAX && |content| <= U32_MAX && |fields| <= MAX_FIELDS
    ensures WellFormed(v) && Encode(v) == MessageText(ts, title, content, fields)
    ensures Nesting(v) <= MAX_DEPTH <==> AllDeeper(fields)
  {
    var form, items := FieldsTree(fields);
    TextIsTree(ts, title, content, Map(form, items));
    v := PayloadValue(ts, title, content, Map(form, items));
    assert Nesting(Map(form, items)) == NestingInside(items);
    hide PayloadValue;
    hide Encode;
    hide WellFormed;
    hide Nesting;
    hide FieldsText;
    hide EntriesOk;
    hide Deeper;
  }

  /** `append_recipient_stamp` accepts a built message just when every field value is also
      complete at depth 2, the stamp is a ticket's or a proof of work, and both fit; a stamp of any
      other length, and a value too deep, are malformed. */
  lemma StampAcceptsBuilt(
    c: Crypto, privateKey: key64, dest: hash16, ts: timestamp, title: bytes, content: bytes,
    fields: seq<EncodedField>, buffer: bytes, n: nat, stampLen: nat
  )
    requires Admit(fields).Ok? && |title| <= U32_MAX && |content| <= U32_MAX && |fields| <= MAX_FIELDS
    requires n <= |buffer| && buffer[..n] == Packed(c, privateKey, dest, MessageText(ts, title, content, fields))
    ensures var r := StampVerdict(buffer, n, stampLen);
            if !AllDeeper(fields) || (stampLen != 16 && stampLen != 32) then r == Err(MalformedPayload)
            else if n + 2 + stampLen > |buffer| then r == Err(OutputTooSmall)
            else r == Ok(n + 2 + stampLen)
  {
    hide *;
    Constants();
    BuiltIsFramed(c, privateKey, dest, ts, title, content, fields, buffer, n);
    StampOfMarked(buffer, n, stampLen);
  }

  /** Behind a marker of four elements only the skip, the stamp's length and room are left. */
  lemma StampOfMarked(buffer: bytes, n: nat, stampLen: nat)
    requires 96 < n <= |buffer| && buffer[96] == 0x94
    ensures var r, skipped := StampVerdict(buffer, n, stampLen), SkipValue(buffer[..n], 96, 0);
            if skipped != Ok(n) || (stampLen != 16 && stampLen != 32) then r == Err(MalformedPayload)
            else if n + 2 + stampLen > |buffer| then r == Err(OutputTooSmall)
            else r == Ok(n + 2 + stampLen)
  {
    hide SkipValue;
  }

  /** `seal_opportunistic` passes its framing and destination checks on an unstamped built
      message under the same condition; what is left to decide is size. */
  lemma SealAcceptsBuilt(
    c: Crypto, e: Ecies, privateKey: key64, recipient: key64, ts: timestamp, title: bytes, content: bytes,
    fields: seq<EncodedField>, buffer: bytes, n: nat
  )
    requires Admit(fields).Ok? && |title| <= U32_MAX && |content| <= U32_MAX && |fields| <= MAX_FIELDS
    requires n <= |buffer|
    requires buffer[..n] == Packed(c, privateKey, c.Delivery(recipient), MessageText(ts, title, content, fields))
    ensures SealVerdict(c, e, buffer, n, recipient)
         == if AllDeeper(fields) then SealSize(c, e, |buffer|, n) else Err(MalformedPayload)
  {
    BuiltIsFramed(c, privateKey, c.Delivery(recipient), ts, title, content, fields, buffer, n);
    hide SkipValue;
    hide Packed;
    hide MessageText;
    hide AllDeeper;
    hide Admit;
  }

  /** The size checks of sealing. */
  function SealSize(c: Crypto, e: Ecies, room: nat, packedLen: nat): Result<nat> {
    if packedLen < 16 || packedLen - 16 > c.maxPlaintext then
      Err(TooLong)
    else
      var total :- e.ciphertextLen(packedLen - 16);
      if total > room then Err(OutputTooSmall) else Ok(total)
  }

  /** After stamping, the same holds of the stamped message, unconditionally. */
  lemma SealAcceptsStamped(
    c: Crypto, e: Ecies, before: bytes, packedLen: nat, stamp: bytes, recipient: key64, buffer: bytes, n: nat
  )
    requires StampVerdict(before, packedLen, |stamp|).Ok? && n == StampVerdict(before, packedLen, |stamp|).value
    requires before[..16] == c.Delivery(recipient)
    requires |buffer| == |before| && packedLen <= |before| && |stamp| < 0x100 && packedLen > LXMF_PACKED_PREFIX
    requires n <= |buffer| && buffer[..n] == Stamped(before[..packedLen], stamp)
    ensures SealVerdict(c, e, buffer, n, recipient) == SealSize(c, e, |buffer|, n)
  {
    var items := StampMakesFive(before, packedLen, stamp);
    StampedLayout(before, packedLen, stamp, items);
    StampedHead(before, packedLen, stamp, buffer, n);
    hide SkipValue;
    hide Stamped;
    hide EncodeAll;
    hide AllWellFormed;
    hide IsArray;
  }

  lemma StampedHead(before: bytes, packedLen: nat, stamp: bytes, buffer: bytes, n: nat)
    requires packedLen <= |before| && |stamp| < 0x100 && packedLen > LXMF_PACKED_PREFIX
    requires n <= |buffer| && buffer[..n] == Stamped(before[..packedLen], stamp)
    ensures n > LXMF_PACKED_PREFIX && buffer[LXMF_PACKED_PREFIX] == 0x95 && buffer[..16] == before[..16]
  {
    assert buffer[96] == buffer[..n][96];
    assert buffer[..16] == buffer[..n][..16] == before[..packedLen][..16];
  }

  /** The cipher's frame holds the message without its destination, at the plaintext offset. */
  lemma FramePlaintext(e: Ecies, buffer: bytes, packedLen: nat, total: nat)
    requires 16 <= packedLen <= |buffer| && e.plaintextOffset + (packedLen - 16) <= total <= |buffer|
    ensures |Frame(e, buffer, packedLen, total)| == total
    ensures At(Frame(e, buffer, packedLen, total), e.plaintextOffset, buffer[16..packedLen])
  {
  }

  /** Once opened, a stamped packet parses to the view of what was built. */
  lemma StampedReads(
    c: Crypto, privateKey: key64, me: key64, ts: timestamp, title: bytes, content: bytes,
    fields: seq<EncodedField>, stamp: bytes
  )
    requires Admit(fields).Ok? && |title| <= U32_MAX && |content| <= U32_MAX && |fields| <= MAX_FIELDS
    requires KeysMatch(c, privateKey) && |stamp| < 0x100
    ensures var text := MessageText(ts, title, content, fields);
            var dest, source := c.Delivery(c.publicKeyOf(me)), c.Delivery(c.publicKeyOf(privateKey));
            var packed := Packed(c, privateKey, dest, text);
            |packed| > LXMF_PACKED_PREFIX && |packed| == 96 + |text|
            && (|Stamped(packed, stamp)[16..]| <= c.maxPlaintext ==>
                  var view := ParseDecrypted(c, me, Stamped(packed, stamp)[16..], c.publicKeyOf(privateKey));
                  view.Ok?
                  && view.value == View(MessageId(c, dest, source, text), source, ts, title, content, FieldsText(fields)))
  {
    hide *;
    Constants();
    var text := MessageText(ts, title, content, fields);
    var dest, key := c.Delivery(c.publicKeyOf(me)), c.publicKeyOf(privateKey);
    var packed := Packed(c, privateKey, dest, text);
    PackedLayout(c, privateKey, dest, text, packed);
    MessageLayout(ts, title, content, fields, text);
    StampedPrefix(packed, stamp);
    var stamped := Stamped(packed, stamp);
    if |stamped[16..]| <= c.maxPlaintext {
      var room := 64 + |stamped|;
      ParseBuilt(c, privateKey, me, ts, title, content, fields, room);
      StampKeepsMessage(c, me, packed, key, room, stamp);
      OneWireFormat(c, me, stamped[16..], key, room);
      assert dest + stamped[16..] == stamped;
    }
  }

  /** Whoever holds `secret` opens `packet` to `plaintext` for the identity of `me`, and the parser
      reads `view` in it. */
  ghost predicate OpensTo(
    c: Crypto, e: Ecies, me: key64, sender: key64, secret: key32, packet: bytes, plaintext: bytes, view: View
  ) {
    && e.open(secret, c.identityHash(c.publicKeyOf(me)), packet) == Some(plaintext)
    && ParseDecrypted(c, me, plaintext, sender).Ok?
    && ParseDecrypted(c, me, plaintext, sender).value == view
  }

  /** What the recipient of a built message is to read. */
  function BuiltView(
    c: Crypto, privateKey: key64, me: key64, ts: timestamp, title: bytes, content: bytes, fields: seq<EncodedField>
  ): View
    requires |fields| <= MAX_FIELDS
  {
    var dest := c.destinationHash(c.identityHash(c.publicKeyOf(me)));
    var source := c.destinationHash(c.identityHash(c.publicKeyOf(privateKey)));
    View(c.sha256(dest + source + MessageText(ts, title, content, fields)), source, ts, title, content, FieldsText(fields))
  }

  /** Build, stamp, seal, open and parse: the holder of the ratchet's secret, or of the base key
      when there is no ratchet, reads the message id, source, timestamp, title, content and fields
      that were built. */
  lemma EndToEnd(
    c: Crypto, e: Ecies, privateKey: key64, me: key64, ts: timestamp, title: bytes, content: bytes,
    fields: seq<EncodedField>, stamp: bytes, buffer: bytes, n: nat, total: nat, ratchet: Option<key32>,
    ephemeral: key32, iv: iv16, secret: key32
  )
    requires Admit(fields).Ok? && |title| <= U32_MAX && |content| <= U32_MAX && |fields| <= MAX_FIELDS
    requires KeysMatch(c, privateKey) && e.Valid() && e.Opens() && |stamp| < 0x100 && n <= |buffer|
    requires e.publicOf(secret) == match ratchet case Some(key) => key case None => c.publicKeyOf(me)[..32]
    requires var packed := Packed(c, privateKey, c.Delivery(c.publicKeyOf(me)), MessageText(ts, title, content, fields));
             |packed| > LXMF_PACKED_PREFIX && buffer[..n] == Stamped(packed, stamp)
    requires SealVerdict(c, e, buffer, n, c.publicKeyOf(me)) == Ok(total)
    ensures 16 <= n && e.plaintextOffset + (n - 16) <= total <= |buffer|
    ensures var sealed := SealedFrame(c, e, buffer, n, total, c.publicKeyOf(me), ratchet, ephemeral, iv);
            sealed.0.Ok? ==> OpensTo(c, e, me, c.publicKeyOf(privateKey), secret, sealed.1, buffer[16..n],
                                     BuiltView(c, privateKey, me, ts, title, content, fields))
  {
    hide *;
    var text, recipient := MessageText(ts, title, content, fields), c.publicKeyOf(me);
    SealedSizes(c, e, buffer, n, recipient, total);
    SealedOpens(c, e, buffer, n, total, recipient, ratchet, ephemeral, iv, secret);
    StampedReads(c, privateKey, me, ts, title, content, fields, stamp);
    assert buffer[16..n] == buffer[..n][16..];
    BuiltIsSigned(c, privateKey, c.Delivery(recipient), text);
    var sealed := SealedFrame(c, e, buffer, n, total, recipient, ratchet, ephemeral, iv);
    if sealed.0.Ok? {
      OpenedView(c, e, privateKey, me, ts, title, content, fields, secret, sealed.1, buffer[16..n]);
    }
  }

  /** What sealing has checked of the sizes. */
  lemma SealedSizes(c: Crypto, e: Ecies, buffer: bytes, packedLen: nat, recipient: key64, total: nat)
    requires e.Valid() && SealVerdict(c, e, buffer, packedLen, recipient) == Ok(total)
    ensures 96 < packedLen <= |buffer| && packedLen - 16 <= c.maxPlaintext
    ensures e.plaintextOffset + (packedLen - 16) <= total <= |buffer|
  {
    hide SkipValue;
  }

  lemma OpenedView(
    c: Crypto, e: Ecies, privateKey: key64, me: key64, ts: timestamp, title: bytes, content: bytes,
    fields: seq<EncodedField>, secret: key32, packet: bytes, plaintext: bytes
  )
    requires |fields| <= MAX_FIELDS
    requires e.open(secret, c.identityHash(c.publicKeyOf(me)), packet) == Some(plaintext)
    requires ParseDecrypted(c, me, plaintext, c.publicKeyOf(privateKey)).Ok?
    requires var text, source := MessageText(ts, title, content, fields), c.Delivery(c.publicKeyOf(privateKey));
             ParseDecrypted(c, me, plaintext, c.publicKeyOf(privateKey)).value
             == View(MessageId(c, c.Delivery(c.publicKeyOf(me)), source, text), source, ts, title, content, FieldsText(fields))
    ensures OpensTo(c, e, me, c.publicKeyOf(privateKey), secret, packet, plaintext,
                    BuiltView(c, privateKey, me, ts, title, content, fields))
  {
    hide ParseDecrypted;
    hide MessageText;
    hide FieldsText;
  }

  lemma StampedPrefix(packed: bytes, stamp: bytes)
    requires |packed| > LXMF_PACKED_PREFIX && |stamp| < 0x100
    ensures |Stamped(packed, stamp)| == |packed| + 2 + |stamp| && Stamped(packed, stamp)[..16] == packed[..16]
  {
  }

  // ---- the depth at which building and stamping part ways ----

  function Nested(k: nat): Value {
    if k == 0 then Nil else Array(Fix, [Nested(k - 1)])
  }

  lemma {:induction false} NestedDepth(k: nat)
    ensures WellFormed(Nested(k)) && Nesting(Nested(k)) == k
  {
    if k > 0 {
      NestedDepth(k - 1);
      var inner := [Nested(k - 1)];
      assert inner[1..] == [] && NestingInside(inner) == 1 + Nesting(inner[0]);
      assert Nesting(Array(Fix, inner)) == NestingInside(inner);
    }
  }

  /** `k` one-element arrays around a nil. */
  function NestedBytes(k: nat): bytes {
    NestedDepth(k);
    Encode(Nested(k))
  }

  /** Nested arrays are admitted as a field value up to seven deep, and stay stampable up to six. */
  lemma NestedLimits(k: nat)
    ensures Complete(NestedBytes(k)) <==> k <= 7
    ensures Deeper(NestedBytes(k)) <==> k <= 6
  {
    NestedDepth(k);
    hide Nested;
    hide SkipValue;
    hide Encode;
    hide WellFormed;
    hide Nesting;
    var value := NestedBytes(k);
    assert value[0..|value|] == value;
    SkipEncoded(value, 0, 1, Nested(k));
    SkipEncoded(value, 0, 2, Nested(k));
  }

  function DeepField(): seq<EncodedField> {
    [EncodedField(0x0A, NestedBytes(7))]
  }

  lemma DeepFieldAdmitted()
    ensures Admit(DeepField()).Ok? && |DeepField()| <= MAX_FIELDS && !AllDeeper(DeepField())
  {
    NestedLimits(7);
    hide NestedBytes;
    hide Complete;
    hide Deeper;
    AdmitMeaning(DeepField());
    assert Admissible(DeepField()) && DeepField()[0].value == NestedBytes(7);
  }

  /** One message that the builder makes and the parser accepts, but that can be neither stamped
      nor sealed: its only field is seven arrays deep. */
  lemma BuiltButNotStampable(
    c: Crypto, e: Ecies, privateKey: key64, me: key64, ts: timestamp, title: bytes, content: bytes, buffer: bytes, n: nat,
    stampLen: nat
  )
    requires KeysMatch(c, privateKey) && |title| <= U32_MAX && |content| <= U32_MAX && |DeepField()| <= MAX_FIELDS
    requires n <= |buffer|
    requires buffer[..n] == Packed(c, privateKey, c.Delivery(c.publicKeyOf(me)), MessageText(ts, title, content, DeepField()))
    ensures Admit(DeepField()).Ok?
    ensures ParseLink(c, me, buffer[..n], c.publicKeyOf(privateKey), n).Ok?
    ensures StampVerdict(buffer, n, stampLen).Err? && SealVerdict(c, e, buffer, n, c.publicKeyOf(me)).Err?
  {
    hide *;
    DeepFieldAdmitted();
    var fields := DeepField();
    var text, dest := MessageText(ts, title, content, fields), c.Delivery(c.publicKeyOf(me));
    PackedLayout(c, privateKey, dest, text, buffer[..n]);
    ParseBuilt(c, privateKey, me, ts, title, content, fields, n);
    BuiltIsFramed(c, privateKey, dest, ts, title, content, fields, buffer, n);
    UnframedIsRefused(c, e, buffer, n, stampLen, c.publicKeyOf(me));
  }

  lemma UnframedIsRefused(c: Crypto, e: Ecies, buffer: bytes, n: nat, stampLen: nat, recipient: key64)
    requires n <= |buffer| && SkipValue(buffer[..n], LXMF_PACKED_PREFIX, 0).Err?
    ensures StampVerdict(buffer, n, stampLen).Err? && SealVerdict(c, e, buffer, n, recipient).Err?
  {
    hide SkipValue;
  }
}
