/** Wrapping one encrypted entry and its stamp for upload, in place. */
module Uploads {
  import opened Bytes
  import opened MessagePack
  import opened ArrayLists
  import opened Encoder
  import opened Message
  import opened Codec
  import opened FieldMessages
  import opened RoundTrip
  import opened Delivery

  /** A float64 is finite unless its eleven exponent bits are all set. */
  predicate IsFinite(ts: timestamp) {
    !(ts[0] % 0x80 == 0x7f && ts[1] >= 0xf0)
  }

  /** ... that is, unless the eleven bits behind the sign, as a number, are 0x7ff. */
  lemma FiniteMeaning(ts: timestamp)
    ensures IsFinite(ts) <==> BigEndian(ts[..2]) / 16 % 0x800 != 0x7ff
  {
    assert ts[..2][..1] == [ts[0]] && [ts[0]][..0] == [];
    assert BigEndian([ts[0]]) == ts[0];
    assert BigEndian(ts[..2]) == 256 * (ts[0] as int) + ts[1];
  }

  function PrefixLen(entryLen: nat): nat {
    if entryLen <= 0xff then 13 else 14
  }

  /** `overhead` is the fixed overhead of the packet cipher. */
  function WrapVerdict(overhead: nat, room: nat, encryptedLen: nat, ts: timestamp): Result<nat> {
    if !IsFinite(ts) || encryptedLen < 16 + overhead + 16 || encryptedLen > room then
      Err(MalformedPayload)
    else
      var entryLen := encryptedLen + 32;
      if entryLen > 0xffff then Err(TooLong)
      else if entryLen + PrefixLen(entryLen) > room then Err(OutputTooSmall)
      else Ok(entryLen + PrefixLen(entryLen))
  }

  /** `[timestamp, [entry]]`. */
  function UploadValue(ts: timestamp, entry: bytes): Value {
    Array(Fix, [Float(W64, ts), Array(Fix, [BinValue(entry)])])
  }

  lemma OneItem(v: Value)
    requires WellFormed(v) && Nesting(v) == 0
    ensures WellFormed(Array(Fix, [v])) && Encode(Array(Fix, [v])) == [0x91] + Encode(v)
    ensures NestingInside([v]) == 1 && Nesting(Array(Fix, [v])) == 1
  {
    hide *;
    Single(v);
    ArrayOfOne(Array(Fix, [v]));
  }

  lemma ArrayOfOne(v: Value)
    requires v.Array? && v.form == Fix && |v.items| == 1 && AllWellFormed(v.items)
    ensures WellFormed(v) && Encode(v) == [0x91] + EncodeAll(v.items) && Nesting(v) == NestingInside(v.items)
  {
    hide AllWellFormed;
    hide EncodeAll;
    hide NestingInside;
  }

  lemma TwoItems(a: Value, b: Value)
    requires WellFormed(a) && WellFormed(b) && Nesting(a) == 0 && Nesting(b) == 1
    ensures WellFormed(Array(Fix, [a, b])) && Encode(Array(Fix, [a, b])) == [0x92] + (Encode(a) + Encode(b))
    ensures NestingInside([a, b]) == 2
  {
    hide *;
    Pair(a, b);
    ArrayOfTwo(Array(Fix, [a, b]));
  }

  lemma ArrayOfTwo(v: Value)
    requires v.Array? && v.form == Fix && |v.items| == 2 && AllWellFormed(v.items)
    ensures WellFormed(v) && Encode(v) == [0x92] + EncodeAll(v.items)
  {
    hide AllWellFormed;
    hide EncodeAll;
  }

  /** The bytes of an upload, and how they read: a two-element array whose second item holds one
      string, the entry. */
  lemma UploadReads(ts: timestamp, entry: bytes)
    requires |entry| <= U32_MAX
    ensures WellFormed(UploadValue(ts, entry))
    ensures Encode(UploadValue(ts, entry)) == [0x92, 0xcb] + ts + ([0x91] + BinBytes(entry))
    ensures var inner := Array(Fix, [BinValue(entry)]);
            && IsArray(Encode(UploadValue(ts, entry)), Fix, [Float(W64, ts), inner])
            && WellFormed(inner) && FetchedMessage(Encode(inner)).Ok?
            && FetchedMessage(Encode(inner)).value == Some(entry)
  {
    hide *;
    BinValueIsBin(entry);
    TimestampValue(ts);
    OneItem(BinValue(entry));
    var inner := Array(Fix, [BinValue(entry)]);
    TwoItems(Float(W64, ts), inner);
    UploadShape(ts, entry, inner);
    InnerReads(entry, inner);
    assert [0x92] + ([0xcb] + ts + ([0x91] + BinBytes(entry))) == [0x92, 0xcb] + ts + ([0x91] + BinBytes(entry));
  }

  lemma UploadShape(ts: timestamp, entry: bytes, inner: Value)
    requires inner == Array(Fix, [BinValue(entry)]) && NestingInside([Float(W64, ts), inner]) == 2
    requires WellFormed(Array(Fix, [Float(W64, ts), inner]))
    ensures UploadValue(ts, entry) == Array(Fix, [Float(W64, ts), inner])
    ensures IsArray(Encode(UploadValue(ts, entry)), Fix, [Float(W64, ts), inner])
  {
    hide BinValue;
    hide WellFormed;
    hide NestingInside;
    hide Encode;
  }

  lemma InnerReads(entry: bytes, inner: Value)
    requires inner == Array(Fix, [BinValue(entry)]) && WellFormed(inner) && NestingInside(inner.items) == 1
    ensures FetchedMessage(Encode(inner)).Ok? && FetchedMessage(Encode(inner)).value == Some(entry)
  {
    FetchedMessageOfArray(Encode(inner), Fix, inner.items);
    hide FetchedMessage;
    hide Encode;
    hide WellFormed;
    hide NestingInside;
  }

  /** `wrap_upload`: a right shift over itself, then the stamp and the headers. On either side of
      the 255/256 boundary the buffer then starts with exactly the upload of the old entry and
      its stamp; an error leaves the buffer as it was. */
  method WrapUpload(buffer: array<byte>, encryptedLen: nat, stamp: key32, ts: timestamp, overhead: nat)
    returns (r: Result<nat>)
    modifies buffer
    ensures match WrapVerdict(overhead, buffer.Length, encryptedLen, ts)
            case Err(error) => r.Err? && r.error == error && buffer[..] == old(buffer[..])
            case Ok(total) =>
              && r.Ok? && r.value == total <= buffer.Length && encryptedLen <= buffer.Length
              && WellFormed(UploadValue(ts, old(buffer[..encryptedLen]) + stamp))
              && buffer[..] == Encode(UploadValue(ts, old(buffer[..encryptedLen]) + stamp)) + old(buffer[total..])
  {
    hide *;
    if !IsFinite(ts) || encryptedLen < 16 + overhead + 16 || encryptedLen > buffer.Length {
      WrapRefuses(overhead, buffer.Length, encryptedLen, ts);
      return Err(MalformedPayload);
    }
    var entryLen := encryptedLen + 32;
    WrapSizes(overhead, buffer.Length, encryptedLen, ts);
    if entryLen > 0xffff {
      return Err(TooLong);
    }
    var prefix := if entryLen <= 0xff then 13 else 14;
    var total := entryLen + prefix;
    if total > buffer.Length {
      return Err(OutputTooSmall);
    }
    ghost var before := buffer[..];
    ghost var entry := buffer[..encryptedLen] + stamp;
    ShiftAndStamp(buffer, encryptedLen, prefix, stamp);
    WriteUploadHeader(buffer, entryLen, ts);
    BinBytesOf(entry);
    UploadReads(ts, entry);
    UploadBytes(ts, entry, buffer[..prefix], Encode(UploadValue(ts, entry)));
    assert buffer[..] == buffer[..prefix] + buffer[prefix..];
    return Ok(total);
  }

  /** The overlapping move, and the stamp behind it. */
  method ShiftAndStamp(buffer: array<byte>, encryptedLen: nat, prefix: nat, stamp: key32)
    requires encryptedLen + 32 + prefix <= buffer.Length
    modifies buffer
    ensures buffer[prefix..] == old(buffer[..encryptedLen]) + stamp + old(buffer[encryptedLen + 32 + prefix..])
  {
    ghost var before := buffer[..];
    CopyWithin(buffer, 0, encryptedLen, prefix);
    assert buffer[prefix..prefix + encryptedLen] == before[..encryptedLen];
    assert buffer[prefix + encryptedLen..] == before[prefix + encryptedLen..];
    CopyInto(buffer, prefix + encryptedLen, stamp);
  }

  lemma UploadBytes(ts: timestamp, entry: bytes, header: bytes, upload: bytes)
    requires |entry| <= 0xffff && header == UploadHeader(|entry|, ts)
    requires upload == [0x92, 0xcb] + ts + ([0x91] + BinBytes(entry))
    ensures upload == header + entry
  {
    BinBytesOf(entry);
    hide BinBytes;
    hide ToBigEndian;
  }

  /** The headers before an entry. */
  function UploadHeader(entryLen: nat, ts: timestamp): bytes
    requires entryLen <= 0xffff
  {
    Pow256At2();
    [0x92, 0xcb] + ts + [0x91] + (if entryLen <= 0xff then [0xc4, entryLen] else [0xc5] + ToBigEndian(entryLen, 2))
  }

  method WriteUploadHeader(buffer: array<byte>, entryLen: nat, ts: timestamp)
    requires entryLen <= 0xffff && buffer.Length >= 14
    modifies buffer
    ensures var prefix := if entryLen <= 0xff then 13 else 14;
            buffer[..prefix] == UploadHeader(entryLen, ts) && buffer[prefix..] == old(buffer[prefix..])
  {
    hide ToBigEndian;
    ghost var before := buffer[..];
    WriteUploadOpening(buffer, ts);
    Pow256At2();
    if entryLen <= 0xff {
      CopyInto(buffer, 11, [0xc4, entryLen]);
    } else {
      WriteMarkedLength(buffer, ToBigEndian(entryLen, 2));
    }
    ghost var prefix := if entryLen <= 0xff then 13 else 14;
    assert before[11..][prefix - 11..] == before[prefix..];
  }

  method WriteUploadOpening(buffer: array<byte>, ts: timestamp)
    requires buffer.Length >= 11
    modifies buffer
    ensures buffer[..11] == [0x92, 0xcb] + ts + [0x91] && buffer[11..] == old(buffer[11..])
  {
    ghost var before := buffer[..];
    CopyInto(buffer, 0, [0x92, 0xcb]);
    assert buffer[2..][8..] == buffer[10..] && before[2..][8..] == before[10..];
    CopyInto(buffer, 2, ts);
    assert buffer[..10] == [0x92, 0xcb] + ts && buffer[10..] == before[10..];
    buffer[10] := 0x91;
    assert buffer[..10] == [0x92, 0xcb] + ts && buffer[11..] == before[11..];
  }

  method WriteMarkedLength(buffer: array<byte>, number: bytes)
    requires buffer.Length >= 14 && |number| == 2
    modifies buffer
    ensures buffer[..11] == old(buffer[..11]) && buffer[11..14] == [0xc5] + number && buffer[14..] == old(buffer[14..])
  {
    buffer[11] := 0xc5;
    assert buffer[..11] == old(buffer[..11]) && buffer[14..] == old(buffer[14..]);
    CopyInto(buffer, 12, number);
    assert buffer[..12][..11] == buffer[..11];
  }

  lemma Pow256At2()
    ensures Pow256(2) == 0x1_0000
  {
    assert Pow256(1) == 0x100;
  }

  lemma BinBytesOf(entry: bytes)
    requires |entry| <= 0xffff
    ensures |entry| <= U32_MAX && |entry| < Pow256(2)
    ensures BinBytes(entry) == (if |entry| <= 0xff then [0xc4, |entry|] else [0xc5] + ToBigEndian(|entry|, 2)) + entry
  {
    Pow256At2();
    hide ToBigEndian;
  }

  lemma WrapRefuses(overhead: nat, room: nat, encryptedLen: nat, ts: timestamp)
    requires !IsFinite(ts) || encryptedLen < 16 + overhead + 16 || encryptedLen > room
    ensures WrapVerdict(overhead, room, encryptedLen, ts) == Err(MalformedPayload)
  {
  }

  lemma WrapSizes(overhead: nat, room: nat, encryptedLen: nat, ts: timestamp)
    requires IsFinite(ts) && 16 + overhead + 16 <= encryptedLen <= room
    ensures var entryLen := encryptedLen + 32;
            var total := entryLen + (if entryLen <= 0xff then 13 else 14);
            WrapVerdict(overhead, room, encryptedLen, ts)
            == if entryLen > 0xffff then Err(TooLong) else if total > room then Err(OutputTooSmall) else Ok(total)
  {
  }

  /** The verdict in terms of the upload itself: a timestamp whose exponent bits are all set, or an
      entry too short or not in the buffer, is malformed; an entry beyond bin16 is too long; and
      otherwise it is the length of the upload, if the buffer has room for that. */
  lemma WrapVerdictMeaning(overhead: nat, room: nat, encryptedLen: nat, ts: timestamp, entry: bytes)
    requires |entry| == encryptedLen + 32
    ensures var r := WrapVerdict(overhead, room, encryptedLen, ts);
            if BigEndian(ts[..2]) / 16 % 0x800 == 0x7ff || encryptedLen < 32 + overhead || encryptedLen > room
            then r == Err(MalformedPayload)
            else if |entry| > 0xffff then r == Err(TooLong)
            else
              && WellFormed(UploadValue(ts, entry))
              && var total := |Encode(UploadValue(ts, entry))|;
                 if total > room then r == Err(OutputTooSmall) else r == Ok(total)
  {
    hide *;
    FiniteMeaning(ts);
    if IsFinite(ts) && 16 + overhead + 16 <= encryptedLen <= room {
      WrapSizes(overhead, room, encryptedLen, ts);
      if |entry| <= 0xffff {
        BinBytesOf(entry);
        UploadReads(ts, entry);
      }
    } else {
      WrapRefuses(overhead, room, encryptedLen, ts);
    }
  }
}
