/** What stamping and sealing accept, in terms of trees, and whom a sealed packet is for. */
module Sealing {
  import opened Bytes
  import opened MessagePack
  import opened Walker
  import opened ArrayLists
  import opened Encoder
  import opened Message
  import opened Delivery

  // ---- framing ----

  /** Behind the addresses and the signature stands exactly one fixarray of `n` elements. */
  ghost predicate Carries(buffer: bytes, packedLen: nat, n: nat) {
    && 96 < packedLen <= |buffer|
    && exists items: seq<Value> :: |items| == n && IsArray(buffer[96..packedLen], Fix, items)
  }

  lemma FixArrayMarker(v: Value, n: nat)
    requires WellFormed(v) && n <= 15
    ensures Encode(v)[0] == 0x90 + n <==> v.Array? && v.form == Fix && |v.items| == n
  {
    hide EncodeAll;
    hide AllWellFormed;
    hide ToBigEndian;
    hide Pow256;
    assert Encode(v)[0] == Header(v)[0];
  }

  lemma FramingMeaning(buffer: bytes, packedLen: nat, n: nat)
    requires 96 < packedLen <= |buffer| && n <= 15
    ensures (buffer[96] == 0x90 + n && SkipValue(buffer[..packedLen], 96, 0) == Ok(packedLen))
       <==> Carries(buffer, packedLen, n)
  {
    hide SkipValue;
    hide Encode;
    hide WellFormed;
    var data, part := buffer[..packedLen], buffer[96..packedLen];
    assert data[96..packedLen] == part && part[0] == buffer[96];
    if buffer[96] == 0x90 + n && SkipValue(data, 96, 0) == Ok(packedLen) {
      var v := SkipSound(data, 96, 0);
      FixArrayMarker(v, n);
      assert v == Array(Fix, v.items);
      assert IsArray(part, Fix, v.items);
    }
    if items: seq<Value> :| |items| == n && IsArray(part, Fix, items) {
      var v := Array(Fix, items);
      FixArrayMarker(v, n);
      SkipEncoded(data, 96, 0, v);
      assert Nesting(v) == NestingInside(items);
    }
  }

  /** `append_recipient_stamp` accepts exactly the messages with one complete four-element array
      and the stamps of 16 or 32 bytes, when both fit; nothing else but room is ever short. */
  lemma StampVerdictMeaning(buffer: bytes, packedLen: nat, stampLen: nat)
    ensures var r := StampVerdict(buffer, packedLen, stampLen);
            if !Carries(buffer, packedLen, 4) || (stampLen != 16 && stampLen != 32) then r == Err(MalformedPayload)
            else if packedLen + 2 + stampLen > |buffer| then r == Err(OutputTooSmall)
            else r == Ok(packedLen + 2 + stampLen)
  {
    if 96 < packedLen <= |buffer| {
      FramingMeaning(buffer, packedLen, 4);
    }
    CarriedInside(buffer, packedLen, 4);
    hide SkipValue;
    hide Carries;
  }

  lemma CarriedInside(buffer: bytes, packedLen: nat, n: nat)
    ensures Carries(buffer, packedLen, n) ==> 96 < packedLen <= |buffer|
  {
  }

  /** `seal_opportunistic` gets to the cipher exactly for a message of four or five elements to
      this recipient that fits one packet, and otherwise says which of these failed first. */
  lemma SealVerdictMeaning(c: Crypto, e: Ecies, buffer: bytes, packedLen: nat, recipient: key64)
    ensures var r := SealVerdict(c, e, buffer, packedLen, recipient);
            if !Carries(buffer, packedLen, 4) && !Carries(buffer, packedLen, 5) then r == Err(MalformedPayload)
            else if buffer[..16] != c.destinationHash(c.identityHash(recipient)) then r == Err(DestinationMismatch)
            else if packedLen - 16 > c.maxPlaintext then r == Err(TooLong)
            else if e.ciphertextLen(packedLen - 16).Err? then r.Err? && r.error == e.ciphertextLen(packedLen - 16).error
            else if e.ciphertextLen(packedLen - 16).value > |buffer| then r == Err(OutputTooSmall)
            else r == e.ciphertextLen(packedLen - 16)
  {
    if 96 < packedLen <= |buffer| {
      FramingMeaning(buffer, packedLen, 4);
      FramingMeaning(buffer, packedLen, 5);
    }
    CarriedInside(buffer, packedLen, 4);
    CarriedInside(buffer, packedLen, 5);
    hide SkipValue;
    hide Carries;
  }

  // ---- whom a packet is for ----

  /** A packet is one encryption of the message without its destination, to the ratchet or, when
      there is none, to the first half of the recipient's key, under the recipient's identity
      hash, with the entropy the caller gave. */
  lemma SealedTo(
    c: Crypto, e: Ecies, buffer: bytes, packedLen: nat, total: nat, recipient: key64, ratchet: Option<key32>,
    ephemeral: key32, iv: iv16
  ) returns (frame: bytes)
    requires 16 <= packedLen <= |buffer| && e.plaintextOffset + (packedLen - 16) <= total <= |buffer|
    ensures |frame| == total
    ensures frame[e.plaintextOffset..e.plaintextOffset + (packedLen - 16)] == buffer[16..packedLen]
    ensures SealedFrame(c, e, buffer, packedLen, total, recipient, ratchet, ephemeral, iv)
         == e.encrypt(match ratchet case Some(key) => key case None => recipient[..32],
                      c.identityHash(recipient), ephemeral, iv, frame, packedLen - 16)
  {
    frame := Frame(e, buffer, packedLen, total);
  }

  /** Whoever holds the secret of that key opens the sealed buffer to exactly the message without
      its destination. */
  lemma SealedOpens(
    c: Crypto, e: Ecies, buffer: bytes, packedLen: nat, total: nat, recipient: key64, ratchet: Option<key32>,
    ephemeral: key32, iv: iv16, secret: key32
  )
    requires e.Opens() && 16 <= packedLen <= |buffer| && e.plaintextOffset + (packedLen - 16) <= total <= |buffer|
    requires e.publicOf(secret) == match ratchet case Some(key) => key case None => recipient[..32]
    ensures var sealed := SealedFrame(c, e, buffer, packedLen, total, recipient, ratchet, ephemeral, iv);
            sealed.0.Ok? ==> e.open(secret, c.identityHash(recipient), sealed.1) == Some(buffer[16..packedLen])
  {
    var frame := SealedTo(c, e, buffer, packedLen, total, recipient, ratchet, ephemeral, iv);
    hide SealedFrame;
    assert e.encrypt(e.publicOf(secret), c.identityHash(recipient), ephemeral, iv, frame, packedLen - 16)
        == SealedFrame(c, e, buffer, packedLen, total, recipient, ratchet, ephemeral, iv);
  }
}
