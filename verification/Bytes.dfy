/** Octet strings, big-endian numbers and the result types shared by every module. */
module Bytes {
  type byte = x: int | 0 <= x < 0x100
  type bytes = seq<byte>

  datatype Option<+T> = None | Some(value: T) {
    predicate IsFailure() {
      None?
    }

    function PropagateFailure<U>(): Option<U>
      requires None?
    {
      None
    }

    function Extract(): T
      requires Some?
    {
      value
    }
  }

  /** The error cases of the codec. */
  datatype LxmfError =
    | TooLong
    | OutputTooSmall
    | Crypto
    | MalformedPayload
    | SignatureInvalid
    | SourceHashMismatch
    | DestinationMismatch
    | TooManyFields
    | DuplicateField

  datatype Result<+T> = Ok(value: T) | Err(error: LxmfError) {
    predicate IsFailure() {
      Err?
    }

    function PropagateFailure<U>(): Result<U>
      requires Err?
    {
      Err(error)
    }

    function Extract(): T
      requires Ok?
    {
      value
    }
  }

  // ---- big-endian numbers ----

  function Pow256(n: nat): (r: nat)
    ensures r > 0
  {
    if n == 0 then 1 else 256 * Pow256(n - 1)
  }

  lemma Pow256Values()
    ensures Pow256(1) == 0x100
    ensures Pow256(2) == 0x1_0000
    ensures Pow256(4) == 0x1_0000_0000
    ensures Pow256(8) == 0x1_0000_0000_0000_0000
  {
    assert Pow256(3) == 0x100_0000;
    assert Pow256(5) == 0x100_0000_0000;
    assert Pow256(7) == 256 * Pow256(6);
  }

  function BigEndian(s: bytes): nat {
    if s == [] then 0 else 256 * BigEndian(s[..|s| - 1]) + s[|s| - 1]
  }

  function ToBigEndian(n: nat, width: nat): (s: bytes)
    requires n < Pow256(width)
    ensures |s| == width && BigEndian(s) == n
  {
    if width == 0 then
      []
    else
      var s := ToBigEndian(n / 256, width - 1);
      assert (s + [n % 256])[..width - 1] == s;
      s + [n % 256]
  }

  lemma {:induction false} BigEndianBound(s: bytes)
    ensures BigEndian(s) < Pow256(|s|)
  {
    if s != [] {
      BigEndianBound(s[..|s| - 1]);
    }
  }

  /** Strings of one width are determined by the number they write. */
  lemma {:induction false} BigEndianInjective(s: bytes, t: bytes)
    requires |s| == |t| && BigEndian(s) == BigEndian(t)
    ensures s == t
  {
    if s != [] {
      var k := |s| - 1;
      assert BigEndian(s) == 256 * BigEndian(s[..k]) + s[k];
      assert BigEndian(t) == 256 * BigEndian(t[..k]) + t[k];
      BigEndianInjective(s[..k], t[..k]);
      assert s == s[..k] + [s[k]] && t == t[..k] + [t[k]];
    }
  }

  lemma ToBigEndianOf(s: bytes)
    ensures BigEndian(s) < Pow256(|s|) && ToBigEndian(BigEndian(s), |s|) == s
  {
    BigEndianBound(s);
    BigEndianInjective(ToBigEndian(BigEndian(s), |s|), s);
  }

  // ---- a string standing inside a longer one ----

  /** `part` stands in `data` at `pos`. */
  predicate At(data: bytes, pos: nat, part: bytes) {
    pos + |part| <= |data| && data[pos..pos + |part|] == part
  }

  lemma AtConcat(data: bytes, pos: nat, a: bytes, b: bytes)
    ensures At(data, pos, a + b) <==> At(data, pos, a) && At(data, pos + |a|, b)
  {
    if At(data, pos, a + b) {
      assert data[pos..pos + |a|] == (a + b)[..|a|];
      assert data[pos + |a|..pos + |a| + |b|] == (a + b)[|a|..];
    }
  }
}
