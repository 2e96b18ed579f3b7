/** The string reader and the integer decoders: `read_bin`, `read_field_id`,
    `read_audio_integer`, and the integer arms of `unsigned` and `read_number`. */
module Readers {
  import opened Bytes
  import opened MessagePack
  import opened Walker
  import opened CheckedWalker

  // ---- strings ----

  /** The body of the bin or str at `pos`, and its end. */
  function ReadBin(data: bytes, pos: nat): (r: Result<(bytes, nat)>)
    ensures r.Err? ==> r.error == MalformedPayload
    ensures r.Ok? ==> pos < r.value.1 <= |data|
  {
    if pos >= |data| then
      Err(MalformedPayload)
    else
      var b := data[pos];
      if (b == 0xc4 || b == 0xd9) && pos + 2 <= |data| then StringBody(data, pos + 2, data[pos + 1])
      else if (b == 0xc5 || b == 0xda) && pos + 3 <= |data| then
        StringBody(data, pos + 3, BigEndian(data[pos + 1..pos + 3]))
      else if (b == 0xc6 || b == 0xdb) && pos + 5 <= |data| then
        StringBody(data, pos + 5, BigEndian(data[pos + 1..pos + 5]))
      else if 0xa0 <= b <= 0xbf then StringBody(data, pos + 1, b % 32)
      else Err(MalformedPayload)
  }

  function StringBody(data: bytes, start: nat, length: nat): Result<(bytes, nat)> {
    if start + length <= |data| then
      Ok((data[start..start + length], start + length))
    else
      Err(MalformedPayload)
  }

  /** The reader at the machine's width: only the last addition can leave the word. */
  method CheckedReadBin(usizeMax: nat, data: bytes, pos: nat) returns (r: Result<(bytes, nat)>)
    requires Fits(usizeMax, data)
    ensures r == ReadBin(data, pos)
  {
    hide BigEndian;
    if pos >= |data| {
      return Err(MalformedPayload);
    }
    var b := data[pos];
    var hdr, length;
    if (b == 0xc4 || b == 0xd9) && pos + 2 <= |data| {
      hdr, length := 2, data[pos + 1];
    } else if (b == 0xc5 || b == 0xda) && pos + 3 <= |data| {
      hdr, length := 3, BigEndian(data[pos + 1..pos + 3]);
    } else if (b == 0xc6 || b == 0xdb) && pos + 5 <= |data| {
      hdr, length := 5, BigEndian(data[pos + 1..pos + 5]);
    } else if 0xa0 <= b <= 0xbf {
      hdr, length := 1, b % 32;
    } else {
      return Err(MalformedPayload);
    }
    var end :- CheckedBody(usizeMax, data, pos + hdr, length);
    return Ok((data[pos + hdr..end], end));
  }

  predicate IsString(v: Value) {
    v.Str? || v.Bin?
  }

  predicate StringMarker(b: byte) {
    0xa0 <= b <= 0xbf || 0xc4 <= b <= 0xc6 || 0xd9 <= b <= 0xdb
  }

  lemma OneByte(data: bytes, at: nat)
    requires at < |data|
    ensures BigEndian(data[at..at + 1]) == data[at]
  {
    assert data[at..at + 1] == [data[at]] && [data[at]][..0] == [];
  }

  /** The reader and the walker agree on where a string ends. */
  lemma ReadBinHead(data: bytes, pos: nat)
    requires pos < |data|
    ensures ReadBin(data, pos).Ok? <==> StringMarker(data[pos]) && ReadHead(data, pos).Ok?
    ensures ReadBin(data, pos).Ok? ==> ReadHead(data, pos) == Ok(Leaf(ReadBin(data, pos).value.1))
  {
    hide BigEndian;
    if pos + 2 <= |data| {
      OneByte(data, pos + 1);
    }
  }

  lemma ReadBinOfString(data: bytes, pos: nat, v: Value)
    requires WellFormed(v) && IsString(v) && At(data, pos, Encode(v))
    ensures ReadBin(data, pos) == Ok((v.body, pos + |Encode(v)|))
  {
    hide BigEndian;
    hide Prefix;
    AtConcat(data, pos, Header(v), Payload(v));
    if v.Str? {
      MarkerAndLength(data, pos, v.form, |v.body|, 0xa0, 31, 0xd9, 0xda, 0xdb);
    } else {
      MarkerAndLength(data, pos, v.form, |v.body|, 0, 0, 0xc4, 0xc5, 0xc6);
    }
    if v.form == Len8 {
      OneByte(data, pos + 1);
    }
  }

  /** A string is read just when one stands there, and it is that string. */
  lemma ReadBinIsGrammar(data: bytes, pos: nat, body: bytes, end: nat)
    ensures ReadBin(data, pos) == Ok((body, end))
       <==> exists v :: IsString(v) && v.body == body && Denotes(v, data, pos, end, MAX_DEPTH)
  {
    if ReadBin(data, pos) == Ok((body, end)) {
      var v := StringAtReadBin(data, pos);
      assert Denotes(v, data, pos, end, MAX_DEPTH);
    }
    hide ReadBin;
    if v :| IsString(v) && v.body == body && Denotes(v, data, pos, end, MAX_DEPTH) {
      ReadBinOfString(data, pos, v);
    }
  }

  lemma StringAtReadBin(data: bytes, pos: nat) returns (v: Value)
    requires ReadBin(data, pos).Ok?
    ensures IsString(v) && v.body == ReadBin(data, pos).value.0
    ensures Denotes(v, data, pos, ReadBin(data, pos).value.1, MAX_DEPTH)
  {
    ReadBinHead(data, pos);
    assert pos < |data|;
    hide ReadBin;
    hide ReadHead;
    v := StringFrom(data, pos);
    StringShape(data, pos, v);
    ReadBinOfString(data, pos, v);
  }

  lemma StringShape(data: bytes, pos: nat, v: Value)
    requires WellFormed(v) && At(data, pos, Encode(v)) && StringMarker(data[pos])
    ensures IsString(v)
  {
    AtConcat(data, pos, Header(v), Payload(v));
    assert data[pos] == data[pos..pos + |Header(v)|][0];
    hide ToBigEndian;
    hide Pow256;
  }

  // ---- integers ----

  function TwosComplement(s: bytes): int
    requires s != []
  {
    if s[0] >= 0x80 then BigEndian(s) - Pow256(|s|) else BigEndian(s)
  }

  /** The number an integer tree denotes. */
  function IntOf(v: Value): Option<int>
    requires NodeOk(v)
  {
    match v
    case PosFixInt(n) => Some(n)
    case NegFixInt(n) => Some(n)
    case UInt(_, body) => Some(BigEndian(body))
    case SInt(_, body) => Some(TwosComplement(body))
    case _ => None
  }

  /** Width of the integer after a `0xcc`-`0xd3` marker. */
  function IntWidth(marker: byte): nat
    requires 0xcc <= marker <= 0xd3
  {
    if marker == 0xcc || marker == 0xd0 then 1
    else if marker == 0xcd || marker == 0xd1 then 2
    else if marker == 0xce || marker == 0xd2 then 4
    else 8
  }

  /** Every integer encoding, at full width, and its end. */
  function ReadFieldId(data: bytes, pos: nat): (r: Option<(int, nat)>)
    ensures r.Some? ==> pos < r.value.1 <= |data|
  {
    if pos >= |data| then
      None
    else
      var marker := data[pos];
      if marker <= 0x7f then Some((marker, pos + 1))
      else if 0xe0 <= marker then Some(((marker as int) - 0x100, pos + 1))
      else if 0xcc <= marker <= 0xd3 then
        var end := pos + 1 + IntWidth(marker);
        if end > |data| then
          None
        else
          var body := data[pos + 1..end];
          Some((if marker <= 0xcf then BigEndian(body) else TwosComplement(body), end))
      else None
  }

  lemma {:induction false} TopByte(s: bytes)
    requires s != []
    ensures s[0] * Pow256(|s| - 1) <= BigEndian(s) < (s[0] + 1) * Pow256(|s| - 1)
  {
    if |s| == 1 {
      OneByte(s, 0);
      assert s[0..1] == s;
    } else {
      var k := |s| - 1;
      TopByte(s[..k]);
      ScaleBy256(s[0], Pow256(k - 1));
    }
  }

  lemma ScaleBy256(top: int, p: nat)
    ensures top * (256 * p) == 256 * (top * p) && (top + 1) * (256 * p) == 256 * ((top + 1) * p)
  {
  }

  /** A full-width number of 1, 2, 4 or 8 bytes stays within the range of a field id. */
  lemma IntegerRange(s: bytes)
    requires |s| == 1 || |s| == 2 || |s| == 4 || |s| == 8
    ensures BigEndian(s) < 0x1_0000_0000_0000_0000
    ensures 0 <= 2 * TwosComplement(s) + Pow256(|s|) < 2 * Pow256(|s|) <= 0x2_0000_0000_0000_0000
    ensures TwosComplement(s) < 0 <==> s[0] >= 0x80
  {
    BigEndianBound(s);
    Pow256Values();
    var p := Pow256(|s| - 1);
    assert Pow256(|s|) == 256 * p;
    TopByte(s);
    if s[0] >= 0x80 {
      assert s[0] * p >= 0x80 * p;
    } else {
      assert (s[0] + 1) * p <= 0x80 * p;
    }
  }

  /** The code's loop: start from -1 when the sign bit is set, then shift bytes in. The final
      range check on a field id cannot fail. */
  method DecodeFieldId(usizeMax: nat, data: bytes, pos: nat) returns (r: Option<(int, nat)>)
    requires Fits(usizeMax, data)
    ensures r == ReadFieldId(data, pos)
  {
    if pos >= |data| {
      return None;
    }
    var marker := data[pos];
    if marker <= 0x7f {
      return Some((marker, pos + 1));
    } else if 0xe0 <= marker {
      return Some(((marker as int) - 0x100, pos + 1));
    } else if !(0xcc <= marker <= 0xd3) {
      return None;
    }
    var width, signed := IntWidth(marker), marker >= 0xd0;
    var start, end := pos + 1, pos + 1 + width;
    assert CheckedAdd(usizeMax, pos, 1) == Some(start) && CheckedAdd(usizeMax, start, width) == Some(end);
    if end > |data| {
      return None;
    }
    var body := data[start..end];
    var value := SignedLoop(body, signed);
    IntegerRange(body);
    if value < -0x8000_0000_0000_0000 || value > 0xFFFF_FFFF_FFFF_FFFF {
      return None;
    }
    return Some((value, end));
  }

  method SignedLoop(body: bytes, signed: bool) returns (value: int)
    requires body != []
    ensures value == if signed then TwosComplement(body) else BigEndian(body)
  {
    ghost var negative := signed && body[0] >= 0x80;
    value := if signed && body[0] >= 0x80 then -1 else 0;
    for i := 0 to |body|
      invariant value == BigEndian(body[..i]) - if negative then Pow256(i) else 0
    {
      assert body[..i + 1][..i] == body[..i];
      value := value * 0x100 + body[i];
    }
    assert body[..|body|] == body;
  }

  /** An integer is read just when an integer tree stands there, and it is that number. */
  lemma FieldIdIsGrammar(data: bytes, pos: nat, id: int, end: nat)
    ensures ReadFieldId(data, pos) == Some((id, end))
       <==> exists v :: Denotes(v, data, pos, end, MAX_DEPTH) && IntOf(v) == Some(id)
  {
    if ReadFieldId(data, pos) == Some((id, end)) {
      var v := IntegerAt(data, pos);
      assert Denotes(v, data, pos, end, MAX_DEPTH) && IntOf(v) == Some(id);
    }
    hide ReadFieldId;
    hide IntOf;
    if v :| Denotes(v, data, pos, end, MAX_DEPTH) && IntOf(v) == Some(id) {
      FieldIdOfInteger(data, pos, v);
    }
  }

  lemma IntegerAt(data: bytes, pos: nat) returns (v: Value)
    requires ReadFieldId(data, pos).Some?
    ensures Denotes(v, data, pos, ReadFieldId(data, pos).value.1, MAX_DEPTH)
    ensures IntOf(v) == Some(ReadFieldId(data, pos).value.0)
  {
    hide BigEndian;
    hide Pow256;
    var b, end := data[pos], ReadFieldId(data, pos).value.1;
    var body := data[pos + 1..end];
    v := if b <= 0x7f then PosFixInt(b)
         else if 0xe0 <= b then NegFixInt((b as int) - 0x100)
         else if b == 0xcc then UInt(W8, body)
         else if b == 0xcd then UInt(W16, body)
         else if b == 0xce then UInt(W32, body)
         else if b == 0xcf then UInt(W64, body)
         else if b == 0xd0 then SInt(W8, body)
         else if b == 0xd1 then SInt(W16, body)
         else if b == 0xd2 then SInt(W32, body)
         else SInt(W64, body);
    assert data[pos..end] == [b] + body;
    assert Encode(v) == [b] + (if b <= 0x7f || 0xe0 <= b then [] else body);
  }

  lemma FieldIdOfInteger(data: bytes, pos: nat, v: Value)
    requires WellFormed(v) && At(data, pos, Encode(v))
    ensures ReadFieldId(data, pos)
         == match IntOf(v) case Some(id) => Some((id, pos + |Encode(v)|)) case None => None
  {
    hide BigEndian;
    hide Pow256;
    hide ToBigEndian;
    AtConcat(data, pos, Header(v), Payload(v));
    assert data[pos] == data[pos..pos + |Header(v)|][0];
  }
}
