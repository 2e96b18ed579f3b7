/** The other integer decoders, each written as its own code computes, and their agreement with
    `read_field_id`. The floating-point arms are not part of this model. */
module IntDecoders {
  import opened Bytes
  import opened Readers

  /** `data.get(from..from + n)`. */
  function Get(data: bytes, from: nat, n: nat): Option<bytes> {
    if from + n <= |data| then Some(data[from..from + n]) else None
  }

  // ---- read_audio_integer: zero high bytes exclude both large and negative values ----

  function ReadAudioInteger(value: bytes): Option<(int, nat)> {
    if value == [] then
      None
    else
      var marker := value[0];
      if marker <= 0x7f then Some((marker, 1))
      else if !(0xcc <= marker <= 0xd3) then None
      else
        var width := IntWidth(marker);
        var number :- Get(value, 1, width);
        if (exists i :: 0 <= i < width - 1 && number[i] != 0) || (marker == 0xd0 && number[0] > 0x7f) then
          None
        else
          Some((number[width - 1], width + 1))
  }

  lemma {:induction false} HighBytes(s: bytes)
    requires s != []
    ensures BigEndian(s) <= 0xff <==> forall i :: 0 <= i < |s| - 1 ==> s[i] == 0
    ensures BigEndian(s) <= 0xff ==> BigEndian(s) == s[|s| - 1]
  {
    var k := |s| - 1;
    if k == 0 {
      OneByte(s, 0);
      assert s[0..1] == s;
    } else {
      HighBytes(s[..k]);
      assert forall i :: 0 <= i < k ==> s[i] == s[..k][i];
      assert BigEndian(s) == 256 * BigEndian(s[..k]) + s[k];
      if BigEndian(s) <= 0xff {
        assert BigEndian(s[..k]) == 0;
      }
    }
  }

  lemma AudioIntegerAgrees(value: bytes)
    ensures ReadAudioInteger(value)
         == match ReadFieldId(value, 0)
            case Some((id, end)) => if 0 <= id <= 0xff then Some((id, end)) else None
            case None => None
  {
    hide BigEndian;
    hide Pow256;
    if value != [] && 0xcc <= value[0] <= 0xd3 && 1 + IntWidth(value[0]) <= |value| {
      var body := value[1..1 + IntWidth(value[0])];
      HighBytes(body);
      IntegerRange(body);
    }
  }

  // ---- unsigned: fixed-size conversions, then a refusal of negatives ----

  function AsI8(b: byte): int {
    if b >= 0x80 then (b as int) - 0x100 else b
  }

  function Unsigned(data: bytes): Option<nat>
    requires data != [] ==> data[0] != 0xca && data[0] != 0xcb
  {
    if data == [] then
      None
    else
      var b := data[0];
      if b <= 0x7f then Some(b)
      else if b == 0xcc then
        var s :- Get(data, 1, 1);
        Some(s[0])
      else if b == 0xcd then
        var s :- Get(data, 1, 2);
        Some(BigEndian(s))
      else if b == 0xce then
        var s :- Get(data, 1, 4);
        Some(BigEndian(s))
      else if b == 0xcf then
        var s :- Get(data, 1, 8);
        Some(BigEndian(s))
      else if b == 0xd0 then
        var s :- Get(data, 1, 1);
        ToUnsigned(AsI8(s[0]))
      else if b == 0xd1 then
        var s :- Get(data, 1, 2);
        ToUnsigned(TwosComplement(s))
      else if b == 0xd2 then
        var s :- Get(data, 1, 4);
        ToUnsigned(TwosComplement(s))
      else if b == 0xd3 then
        var s :- Get(data, 1, 8);
        ToUnsigned(TwosComplement(s))
      else None
  }

  function ToUnsigned(n: int): Option<nat> {
    if n >= 0 then Some(n) else None
  }

  lemma UnsignedAgrees(data: bytes)
    requires data != [] ==> data[0] != 0xca && data[0] != 0xcb
    ensures Unsigned(data)
         == match ReadFieldId(data, 0)
            case Some((id, _)) => if id >= 0 then Some(id) else None
            case None => None
  {
    if data != [] && 0xcc <= data[0] <= 0xd3 && 1 + IntWidth(data[0]) <= |data| {
      if IntWidth(data[0]) == 1 {
        OneByte(data, 1);
        assert Pow256(1) == 0x100;
      }
      hide BigEndian;
      hide Pow256;
    }
  }

  // ---- read_number: 64-bit shifts extend the sign ----

  const WORD := 0x1_0000_0000_0000_0000

  function Zeros(n: nat): (s: bytes)
    ensures |s| == n
  {
    seq(n, _ => 0)
  }

  /** `2^(64 - 8 * width)`, the factor of the shifts. */
  function ShiftFactor(width: nat): nat {
    if width == 1 then 0x100_0000_0000_0000
    else if width == 2 then 0x1_0000_0000_0000
    else if width == 4 then 0x1_0000_0000
    else 1
  }

  function AsI64(u: nat): int {
    if u >= WORD / 2 then (u as int) - WORD else u
  }

  /** Shift left in a 64-bit word, reinterpret, shift right arithmetically. */
  function ShiftExtend(raw: nat, width: nat): int
    requires width == 1 || width == 2 || width == 4 || width == 8
  {
    AsI64(raw * ShiftFactor(width) % WORD) / ShiftFactor(width)
  }

  /** The integer that `read_number` then widens. */
  function ReadNumber(data: bytes, pos: nat): Option<(int, nat)>
    requires pos < |data| ==> data[pos] != 0xca && data[pos] != 0xcb
  {
    if pos >= |data| then
      None
    else
      var marker := data[pos];
      if marker <= 0x7f then Some((marker, pos + 1))
      else if 0xe0 <= marker then Some((AsI8(marker), pos + 1))
      else if !(0xcc <= marker <= 0xd3) then None
      else
        var width := IntWidth(marker);
        var s :- Get(data, pos + 1, width);
        var unsigned := BigEndian(Zeros(8 - width) + s);
        Some((if marker <= 0xcf then unsigned else ShiftExtend(unsigned, width), pos + 1 + width))
  }

  lemma {:induction false} LeadingZeroBytes(n: nat, s: bytes)
    ensures BigEndian(Zeros(n) + s) == BigEndian(s)
  {
    var t := Zeros(n) + s;
    if s != [] {
      assert t[..|t| - 1] == Zeros(n) + s[..|s| - 1];
      LeadingZeroBytes(n, s[..|s| - 1]);
    } else if n > 0 {
      assert t[..|t| - 1] == Zeros(n - 1) + s;
      LeadingZeroBytes(n - 1, s);
    }
  }

  lemma ShiftExtendValue(u: nat, width: nat, modulus: nat)
    requires (width == 1 && modulus == 0x100) || (width == 2 && modulus == 0x1_0000)
          || (width == 4 && modulus == 0x1_0000_0000) || (width == 8 && modulus == WORD)
    requires u < modulus
    ensures ShiftExtend(u, width) == if 2 * u >= modulus then u - modulus else u
  {
    var signed := if 2 * u >= modulus then u - modulus else u;
    var f := ShiftFactor(width);
    assert 0 <= u * f < WORD && AsI64(u * f) == signed * f;
    assert u * f % WORD == u * f;
    assert signed * f / f == signed;
  }

  lemma ShiftExtendIsTwosComplement(s: bytes)
    requires |s| == 1 || |s| == 2 || |s| == 4 || |s| == 8
    ensures ShiftExtend(BigEndian(s), |s|) == TwosComplement(s)
  {
    hide BigEndian;
    hide Pow256;
    hide ShiftExtend;
    BigEndianBound(s);
    IntegerRange(s);
    Pow256Values();
    ShiftExtendValue(BigEndian(s), |s|, Pow256(|s|));
  }

  lemma ReadNumberAgrees(data: bytes, pos: nat)
    requires pos < |data| ==> data[pos] != 0xca && data[pos] != 0xcb
    ensures ReadNumber(data, pos) == ReadFieldId(data, pos)
  {
    hide BigEndian;
    hide TwosComplement;
    hide ShiftExtend;
    if pos < |data| && 0xcc <= data[pos] <= 0xd3 && pos + 1 + IntWidth(data[pos]) <= |data| {
      var s := data[pos + 1..pos + 1 + IntWidth(data[pos])];
      LeadingZeroBytes(8 - |s|, s);
      ShiftExtendIsTwosComplement(s);
    }
  }
}
