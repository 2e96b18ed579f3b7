/** What happens to a packed message before it is sent: appending a recipient stamp, sealing it
    into one packet, and wrapping an upload, all in place in the caller's buffer. */
module Delivery {
  import opened Bytes
  import opened MessagePack
  import opened Walker
  import opened ArrayLists
  import opened Encoder
  import opened Message
  import opened Codec

  // ---- recipient stamps ----

  /** Framing and stamp length; the message itself is not verified. */
  function StampVerdict(buffer: bytes, packedLen: nat, stampLen: nat): Result<nat> {
    if packedLen <= LXMF_PACKED_PREFIX || packedLen > |buffer| || !(stampLen == 16 || stampLen == 32) then
      Err(MalformedPayload)
    else if buffer[LXMF_PACKED_PREFIX] != 0x94 then
      Err(MalformedPayload)
    else
      var end :- SkipValue(buffer[..packedLen], LXMF_PACKED_PREFIX, 0);
      if end != packedLen then Err(MalformedPayload)
      else if packedLen + 2 + stampLen > |buffer| then Err(OutputTooSmall)
      else Ok(packedLen + 2 + stampLen)
  }

  /** The stamp as a fifth element: the marker counts one more, the rest is as it was. */
  function Stamped(packed: bytes, stamp: bytes): bytes
    requires |packed| > LXMF_PACKED_PREFIX && |stamp| < 0x100
  {
    packed[..96] + [0x95] + packed[97..] + [0xc4, |stamp|] + stamp
  }

  /** `append_recipient_stamp`. */
  method AppendRecipientStamp(packed: array<byte>, packedLen: nat, stamp: bytes) returns (r: Result<nat>)
    modifies packed
    ensures match StampVerdict(old(packed[..]), packedLen, |stamp|)
            case Ok(end) =>
              && r.Ok? && r.value == end <= packed.Length
              && LXMF_PACKED_PREFIX < packedLen <= packed.Length && |stamp| < 0x100
              && packed[..] == Stamped(old(packed[..packedLen]), stamp) + old(packed[end..])
            case Err(error) => r.Err? && r.error == error && packed[..] == old(packed[..])
  {
    hide SkipValue;
    if packedLen <= LXMF_PACKED_PREFIX || packedLen > packed.Length || !(|stamp| == 16 || |stamp| == 32) {
      return Err(MalformedPayload);
    }
    if packed[LXMF_PACKED_PREFIX] != 0x94 {
      return Err(MalformedPayload);
    }
    assert packed[..packedLen] == packed[..][..packedLen];
    var skipped :- SkipValue(packed[..packedLen], LXMF_PACKED_PREFIX, 0);
    if skipped != packedLen {
      return Err(MalformedPayload);
    }
    var end := packedLen + 2 + |stamp|;
    if end > packed.Length {
      return Err(OutputTooSmall);
    }
    WriteStamp(packed, packedLen, stamp);
    return Ok(end);
  }

  method WriteStamp(packed: array<byte>, packedLen: nat, stamp: bytes)
    requires LXMF_PACKED_PREFIX < packedLen && packedLen + 2 + |stamp| <= packed.Length && |stamp| < 0x100
    modifies packed
    ensures packed[..] == Stamped(old(packed[..packedLen]), stamp) + old(packed[packedLen + 2 + |stamp|..])
  {
    ghost var before := packed[..];
    packed[packedLen] := 0xc4;
    packed[packedLen + 1] := |stamp|;
    CopyInto(packed, packedLen + 2, stamp);
    packed[LXMF_PACKED_PREFIX] := 0x95;
    StampedUpdates(before, packedLen, stamp, packed[..]);
  }

  /** The four writes, as updates of the old contents. */
  lemma StampedUpdates(before: bytes, packedLen: nat, stamp: bytes, after: bytes)
    requires LXMF_PACKED_PREFIX < packedLen && packedLen + 2 + |stamp| <= |before| == |after| && |stamp| < 0x100
    requires var marked := before[packedLen := 0xc4][packedLen + 1 := |stamp|];
             after == (marked[..packedLen + 2] + stamp + marked[packedLen + 2 + |stamp|..])[96 := 0x95]
    ensures after == Stamped(before[..packedLen], stamp) + before[packedLen + 2 + |stamp|..]
  {
    var end := packedLen + 2 + |stamp|;
    var marked := before[packedLen := 0xc4][packedLen + 1 := |stamp|];
    assert marked[..packedLen + 2] == before[..packedLen] + [0xc4, |stamp|];
    assert marked[end..] == before[end..];
    var head: bytes := before[..packedLen];
    assert head[96 := 0x95] == head[..96] + [0x95] + head[97..];
    var tail: bytes := [0xc4, |stamp|] + stamp + before[end..];
    var all: bytes := head + tail;
    assert all[96 := 0x95] == head[96 := 0x95] + tail;
    assert after == all[96 := 0x95];
  }

  lemma AppendItem(items: seq<Value>, last: Value)
    requires AllWellFormed(items) && WellFormed(last) && Nesting(last) == 0 && NestingInside(items) <= MAX_DEPTH
    ensures AllWellFormed(items + [last])
    ensures EncodeAll(items + [last]) == EncodeAll(items) + Encode(last)
    ensures NestingInside(items + [last]) <= MAX_DEPTH
  {
    Single(last);
    AllWellFormedConcat(items, [last]);
    EncodeAllConcat(items, [last]);
    hide Nesting;
    hide Encode;
    hide WellFormed;
    NestingInsideBound(items, MAX_DEPTH);
    NestingInsideBound(items + [last], MAX_DEPTH);
  }

  lemma StampValueIsBin(stamp: bytes)
    requires |stamp| < 0x100
    ensures WellFormed(Bin(Len8, stamp)) && Nesting(Bin(Len8, stamp)) == 0
    ensures Encode(Bin(Len8, stamp)) == [0xc4, |stamp|] + stamp
  {
    assert Pow256(1) == 0x100;
    assert ToBigEndian(|stamp| / 256, 0) == [];
    assert ToBigEndian(|stamp|, 1) == [|stamp|];
  }

  /** A message that can be stamped carries exactly one four-element array. */
  lemma StampableTree(buffer: bytes, packedLen: nat, stampLen: nat) returns (items: seq<Value>)
    requires StampVerdict(buffer, packedLen, stampLen).Ok?
    ensures LXMF_PACKED_PREFIX < packedLen <= |buffer| && |items| == 4 && AllWellFormed(items)
    ensures buffer[96..packedLen] == [0x94] + EncodeAll(items) && NestingInside(items) <= MAX_DEPTH
  {
    var data := buffer[..packedLen];
    var v := SkipSound(data, 96, 0);
    assert data[96..packedLen] == buffer[96..packedLen];
    FixArrayShape(v);
    hide SkipValue;
    items := v.items;
  }

  lemma FixArrayShape(v: Value)
    requires WellFormed(v) && Encode(v)[0] == 0x94
    ensures v.Array? && |v.items| == 4 && AllWellFormed(v.items) && Encode(v) == [0x94] + EncodeAll(v.items)
    ensures Nesting(v) == NestingInside(v.items)
  {
    hide EncodeAll;
    hide AllWellFormed;
    hide ToBigEndian;
    hide Pow256;
    assert Header(v)[0] == 0x94;
  }

  /** After stamping, the message carries exactly one complete five-element array: the same four
      elements, then the stamp. */
  lemma StampMakesFive(buffer: bytes, packedLen: nat, stamp: bytes) returns (items: seq<Value>)
    requires StampVerdict(buffer, packedLen, |stamp|).Ok? && |stamp| < 0x100
    requires LXMF_PACKED_PREFIX < packedLen <= |buffer|
    ensures |items| == 4 && AllWellFormed(items) && buffer[96..packedLen] == [0x94] + EncodeAll(items)
    ensures IsArray(Stamped(buffer[..packedLen], stamp)[96..], Fix, items + [Bin(Len8, stamp)])
    ensures Stamped(buffer[..packedLen], stamp)[..96] == buffer[..96]
    ensures var stamped := Stamped(buffer[..packedLen], stamp);
            SkipValue(stamped, LXMF_PACKED_PREFIX, 0) == Ok(|stamped|)
  {
    hide *;
    items := StampableTree(buffer, packedLen, |stamp|);
    StampValueIsBin(stamp);
    AppendItem(items, Bin(Len8, stamp));
    FiveArray(items + [Bin(Len8, stamp)]);
    StampedLayout(buffer, packedLen, stamp, items);
    FiveInPlace(Stamped(buffer[..packedLen], stamp), items + [Bin(Len8, stamp)]);
  }

  lemma StampedLayout(buffer: bytes, packedLen: nat, stamp: bytes, items: seq<Value>)
    requires LXMF_PACKED_PREFIX < packedLen <= |buffer| && |stamp| < 0x100 && AllWellFormed(items)
    requires buffer[96..packedLen] == [0x94] + EncodeAll(items)
    ensures |Stamped(buffer[..packedLen], stamp)| == packedLen + 2 + |stamp| >= 96
    ensures Stamped(buffer[..packedLen], stamp)[..96] == buffer[..96]
    ensures Stamped(buffer[..packedLen], stamp)[96..] == [0x95] + (EncodeAll(items) + ([0xc4, |stamp|] + stamp))
  {
    hide EncodeAll;
    hide AllWellFormed;
    assert buffer[..packedLen][97..] == buffer[96..packedLen][1..] == EncodeAll(items);
  }

  lemma FiveInPlace(stamped: bytes, all: seq<Value>)
    requires |stamped| >= 96 && AllWellFormed(all) && NestingInside(all) <= MAX_DEPTH
    requires WellFormed(Array(Fix, all)) && Encode(Array(Fix, all)) == stamped[96..]
    requires Nesting(Array(Fix, all)) == NestingInside(all)
    ensures IsArray(stamped[96..], Fix, all)
    ensures SkipValue(stamped, LXMF_PACKED_PREFIX, 0) == Ok(|stamped|)
  {
    hide Encode;
    hide SkipValue;
    hide WellFormed;
    hide Nesting;
    assert stamped[96..|stamped|] == stamped[96..];
    SkipEncoded(stamped, 96, 0, Array(Fix, all));
  }

  lemma FiveArray(items: seq<Value>)
    requires |items| == 5 && AllWellFormed(items)
    ensures WellFormed(Array(Fix, items)) && Encode(Array(Fix, items)) == [0x95] + EncodeAll(items)
    ensures Nesting(Array(Fix, items)) == NestingInside(items)
  {
    hide EncodeAll;
    hide AllWellFormed;
    hide NestingInside;
  }

  /** Stamping never changes what a recipient reads: same message id, same content. */
  lemma StampKeepsMessage(
    c: Crypto, me: key64, data: bytes, sourceKey: key64, room: nat, stamp: bytes
  )
    requires ParseLink(c, me, data, sourceKey, room).Ok? && |stamp| < 0x100
    ensures |data| > LXMF_PACKED_PREFIX
    ensures ParseLink(c, me, Stamped(data, stamp), sourceKey, room) == ParseLink(c, me, data, sourceKey, room)
  {
    AcceptedLength(c, me, data, sourceKey, room);
    hide *;
    var end := 96 + DecodePayload(data[96..]).value.end;
    StampedSplit(data, end, stamp);
    StampTransparency(c, me, data, sourceKey, room, 0x95, data[end..] + ([0xc4, |stamp|] + stamp), Stamped(data, stamp));
  }

  lemma AcceptedLength(c: Crypto, me: key64, data: bytes, sourceKey: key64, room: nat)
    requires ParseLink(c, me, data, sourceKey, room).Ok?
    ensures |data| > LXMF_PACKED_PREFIX && DecodePayload(data[96..]).Ok?
    ensures 1 < DecodePayload(data[96..]).value.end <= |data| - 96
  {
    hide DecodePayload;
    hide Verified;
  }

  lemma StampedSplit(data: bytes, end: nat, stamp: bytes)
    requires 97 <= end <= |data| && |stamp| < 0x100
    ensures Stamped(data, stamp) == data[..96] + [0x95] + data[97..end] + (data[end..] + ([0xc4, |stamp|] + stamp))
  {
    assert data[97..] == data[97..end] + data[end..];
  }

  // ---- moving bytes inside a buffer ----

  /** `copy_within`: the source is read before it is overwritten, even where the two overlap. */
  method CopyWithin(a: array<byte>, from: nat, to: nat, dest: nat)
    requires from <= to <= a.Length && dest + (to - from) <= a.Length
    modifies a
    ensures a[..] == old(a[..dest]) + old(a[from..to]) + old(a[dest + (to - from)..])
    ensures a[..dest] == old(a[..dest]) && a[dest..dest + (to - from)] == old(a[from..to])
    ensures a[dest + (to - from)..] == old(a[dest + (to - from)..])
  {
    CopyInto(a, dest, a[from..to]);
  }

  // ---- sealing into one packet ----

  type iv16 = s: bytes | |s| == 16 witness seq(16, _ => 0)

  /** The packet cipher, as unknown functions: where the plaintext stands in a frame, how long
      the frame is, what becomes of the frame, whose key is whose, and what its holder opens. */
  datatype Ecies = Ecies(
    plaintextOffset: nat,
    ciphertextLen: nat -> Result<nat>,
    encrypt: (key32, hash16, key32, iv16, bytes, nat) -> (Result<()>, bytes),
    publicOf: key32 -> key32,
    open: (key32, hash16, bytes) -> Option<bytes>
  ) {
    /** A frame has room for its plaintext, and encryption keeps its length. */
    ghost predicate Valid() {
      && (forall n: nat :: ciphertextLen(n).Ok? ==> ciphertextLen(n).value >= plaintextOffset + n)
      && (forall t, h, e, iv, frame, n :: |encrypt(t, h, e, iv, frame, n).1| == |frame|)
    }

    /** Encryption succeeds on a frame of the length it asks for. */
    ghost predicate Succeeds() {
      forall t, h, e, iv, frame, n: nat ::
        ciphertextLen(n).Ok? && |frame| == ciphertextLen(n).value ==> encrypt(t, h, e, iv, frame, n).0.Ok?
    }

    /** What is encrypted to a key, under an identity hash, its secret opens under the same hash
        to the plaintext in the frame. */
    ghost predicate Opens() {
      forall secret, h, e, iv, frame, n: nat | plaintextOffset + n <= |frame| ::
        var (verdict, sealed) := encrypt(publicOf(secret), h, e, iv, frame, n);
        verdict.Ok? ==> open(secret, h, sealed) == Some(frame[plaintextOffset..plaintextOffset + n])
    }
  }

  /** The checks before anything moves, and the frame length. */
  function SealVerdict(c: Crypto, e: Ecies, buffer: bytes, packedLen: nat, recipient: key64): Result<nat> {
    if packedLen <= LXMF_PACKED_PREFIX || packedLen > |buffer| then
      Err(MalformedPayload)
    else if buffer[LXMF_PACKED_PREFIX] != 0x94 && buffer[LXMF_PACKED_PREFIX] != 0x95 then
      Err(MalformedPayload)
    else
      var end :- SkipValue(buffer[..packedLen], LXMF_PACKED_PREFIX, 0);
      if end != packedLen then Err(MalformedPayload)
      else if buffer[..16] != c.Delivery(recipient) then Err(DestinationMismatch)
      else if packedLen - 16 > c.maxPlaintext then Err(TooLong)
      else
        var total :- e.ciphertextLen(packedLen - 16);
        if total > |buffer| then Err(OutputTooSmall) else Ok(total)
  }

  /** The frame handed to the cipher: exactly the plaintext of the message, moved to its place. */
  function Frame(e: Ecies, buffer: bytes, packedLen: nat, total: nat): bytes
    requires 16 <= packedLen <= |buffer| && e.plaintextOffset + (packedLen - 16) <= total <= |buffer|
  {
    buffer[..e.plaintextOffset] + buffer[16..packedLen] + buffer[e.plaintextOffset + (packedLen - 16)..total]
  }

  /** What the cipher makes of a message. */
  function SealedFrame(
    c: Crypto, e: Ecies, buffer: bytes, packedLen: nat, total: nat, recipient: key64, ratchet: Option<key32>,
    ephemeral: key32, iv: iv16
  ): (Result<()>, bytes)
    requires 16 <= packedLen <= |buffer| && e.plaintextOffset + (packedLen - 16) <= total <= |buffer|
  {
    var target: key32 := if ratchet.Some? then ratchet.value else recipient[..32];
    e.encrypt(target, c.identityHash(recipient), ephemeral, iv, Frame(e, buffer, packedLen, total), packedLen - 16)
  }

  method MoveIntoFrame(e: Ecies, buffer: array<byte>, packedLen: nat, total: nat)
    requires 16 <= packedLen <= buffer.Length
    requires e.plaintextOffset + (packedLen - 16) <= total <= buffer.Length
    modifies buffer
    ensures buffer[..total] == Frame(e, old(buffer[..]), packedLen, total)
    ensures buffer[total..] == old(buffer[total..])
  {
    ghost var before, at, end := buffer[..], e.plaintextOffset, e.plaintextOffset + (packedLen - 16);
    CopyWithin(buffer, 16, packedLen, e.plaintextOffset);
    assert buffer[end..][total - end..] == before[end..][total - end..];
    assert buffer[end..][..total - end] == before[end..][..total - end];
  }

  /** The move and the cipher. */
  method MoveAndEncrypt(
    c: Crypto, e: Ecies, buffer: array<byte>, packedLen: nat, total: nat, recipient: key64, ratchet: Option<key32>,
    ephemeral: key32, iv: iv16
  )
    returns (r: Result<nat>)
    requires e.Valid() && 16 <= packedLen <= buffer.Length
    requires e.plaintextOffset + (packedLen - 16) <= total <= buffer.Length
    modifies buffer
    ensures var sealed := SealedFrame(c, e, old(buffer[..]), packedLen, total, recipient, ratchet, ephemeral, iv);
            && buffer[..] == sealed.1 + old(buffer[total..])
            && (r.Ok? <==> sealed.0.Ok?) && (r.Ok? ==> r.value == total)
            && (r.Err? ==> r.error == sealed.0.error)
  {
    ghost var before := buffer[..];
    MoveIntoFrame(e, buffer, packedLen, total);
    var target: key32 := if ratchet.Some? then ratchet.value else recipient[..32];
    var sealed := e.encrypt(target, c.identityHash(recipient), ephemeral, iv, buffer[..total], packedLen - 16);
    CopyInto(buffer, 0, sealed.1);
    if sealed.0.Err? {
      return Err(sealed.0.error);
    }
    return Ok(total);
  }

  /** `seal_opportunistic`: every error before the move leaves the buffer as it was; after it,
      the cipher sees exactly the message without its destination. */
  method SealOpportunistic(
    c: Crypto, e: Ecies, buffer: array<byte>, packedLen: nat, recipient: key64, ratchet: Option<key32>,
    ephemeral: key32, iv: iv16
  )
    returns (r: Result<nat>)
    requires e.Valid()
    modifies buffer
    ensures match SealVerdict(c, e, old(buffer[..]), packedLen, recipient)
            case Err(error) => r.Err? && r.error == error && buffer[..] == old(buffer[..])
            case Ok(total) =>
              && 16 <= packedLen <= buffer.Length && e.plaintextOffset + (packedLen - 16) <= total <= buffer.Length
              && var sealed := SealedFrame(c, e, old(buffer[..]), packedLen, total, recipient, ratchet, ephemeral, iv);
                 && buffer[..] == sealed.1 + old(buffer[total..])
                 && (r.Ok? <==> sealed.0.Ok?) && (r.Ok? ==> r.value == total)
                 && (r.Err? ==> r.error == sealed.0.error)
  {
    hide SkipValue;
    hide SealedFrame;
    if packedLen <= LXMF_PACKED_PREFIX || packedLen > buffer.Length {
      return Err(MalformedPayload);
    }
    if buffer[LXMF_PACKED_PREFIX] != 0x94 && buffer[LXMF_PACKED_PREFIX] != 0x95 {
      return Err(MalformedPayload);
    }
    assert buffer[..packedLen] == buffer[..][..packedLen];
    var skipped :- SkipValue(buffer[..packedLen], LXMF_PACKED_PREFIX, 0);
    if skipped != packedLen {
      return Err(MalformedPayload);
    }
    assert buffer[..16] == buffer[..][..16];
    if buffer[..16] != c.Delivery(recipient) {
      return Err(DestinationMismatch);
    }
    if packedLen - 16 > c.maxPlaintext {
      return Err(TooLong);
    }
    var total :- e.ciphertextLen(packedLen - 16);
    if total > buffer.Length {
      return Err(OutputTooSmall);
    }
    r := MoveAndEncrypt(c, e, buffer, packedLen, total, recipient, ratchet, ephemeral, iv);
  }

  // ---- the life of a built message ----

  /** Whether a built message can be stamped or sealed at all is a question of depth: its payload
      is walked one level further out than its values were when it was built and parsed. */
  lemma BuiltFraming(buffer: bytes, n: nat, text: bytes, v: Value)
    requires n <= |buffer| && n == LXMF_PACKED_PREFIX + |text| && buffer[96..n] == text
    requires WellFormed(v) && Encode(v) == text
    ensures SkipValue(buffer[..n], LXMF_PACKED_PREFIX, 0)
         == if Nesting(v) <= MAX_DEPTH then Ok(n) else Err(MalformedPayload)
  {
    hide SkipValue;
    hide Encode;
    hide WellFormed;
    hide Nesting;
    assert buffer[..n][96..n] == text;
    SkipEncoded(buffer[..n], 96, 0, v);
  }
}
