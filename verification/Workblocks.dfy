/** The proof-of-work block, its value function, and the arithmetic of nonces. */
module Workblocks {
  import opened Bytes
  import opened MessagePack
  import opened Readers
  import opened IntDecoders
  import opened Message

  type chunk = s: bytes | |s| == 256 witness seq(256, _ => 0)

  /** SHA-256, and HKDF expanded to 256 bytes from a salt and key material, as unknown functions. */
  datatype Kdf = Kdf(sha256: bytes -> digest, expand: (digest, digest) -> chunk)

  datatype StampKind = MessageStamp | PropagationStamp | PeeringStamp {
    function Rounds(): nat {
      match this
      case MessageStamp => 3000
      case PropagationStamp => 1000
      case PeeringStamp => 25
    }
  }

  // ---- round numbers ----

  /** A round number as a canonical unsigned integer. */
  function PackRound(round: nat): bytes
    requires round <= 0xffff
  {
    Pow256Values();
    if round <= 0x7f then [round]
    else if round <= 0xff then [0xcc, round]
    else [0xcd] + ToBigEndian(round, 2)
  }

  method PackRoundInto(round: nat, out: array<byte>) returns (n: nat)
    requires round <= 0xffff && out.Length == 3
    modifies out
    ensures n <= 3 && out[..n] == PackRound(round)
  {
    Pow256Values();
    if round <= 0x7f {
      out[0] := round;
      return 1;
    } else if round <= 0xff {
      out[0], out[1] := 0xcc, round;
      return 2;
    } else {
      out[0] := 0xcd;
      var number := ToBigEndian(round, 2);
      out[1], out[2] := number[0], number[1];
      assert out[..3] == [0xcd] + number;
      return 3;
    }
  }

  /** The packed round reads back as that number, and only those bytes are read. */
  lemma PackRoundReads(round: nat)
    requires round <= 0xffff
    ensures ReadFieldId(PackRound(round), 0) == Some((round, |PackRound(round)|))
  {
    Pow256Values();
    var s := PackRound(round);
    if 0x7f < round <= 0xff {
      OneByte(s, 1);
    } else if 0xff < round {
      assert s[1..3] == ToBigEndian(round, 2);
    }
    hide Pow256;
    hide ToBigEndian;
    hide BigEndian;
  }

  /** ... and no integer tree of that number is shorter. */
  lemma PackRoundIsShortest(round: nat, v: Value)
    requires round <= 0xffff && WellFormed(v) && IntOf(v) == Some(round as int)
    ensures |Encode(v)| >= |PackRound(round)|
  {
    if v.UInt? || v.SInt? {
      BigEndianBound(v.body);
      IntegerRange(v.body);
      Pow256Values();
    }
    hide BigEndian;
    hide ToBigEndian;
    hide Pow256;
  }

  // ---- the block ----

  function Chunk(k: Kdf, material: digest, round: nat): chunk
    requires round <= 0xffff
  {
    k.expand(k.sha256(material + PackRound(round)), material)
  }

  /** The first `n` chunks. */
  function BlockPrefix(k: Kdf, material: digest, n: nat): bytes
    requires n <= 0x1_0000
  {
    if n == 0 then [] else BlockPrefix(k, material, n - 1) + Chunk(k, material, n - 1)
  }

  /** Each chunk is HKDF expanded from the material, salted with the hash of the material and the
      round number as the shortest unsigned integer. */
  lemma ChunkMeaning(k: Kdf, material: digest, round: nat) returns (v: Value)
    requires round <= 0xffff
    ensures WellFormed(v) && (v.PosFixInt? || v.UInt?) && IntOf(v) == Some(round as int)
    ensures forall other :: WellFormed(other) && IntOf(other) == Some(round as int) ==> |Encode(other)| >= |Encode(v)|
    ensures Chunk(k, material, round) == k.expand(k.sha256(material + Encode(v)), material)
  {
    v := RoundValue(round);
    hide Encode;
    hide WellFormed;
    hide IntOf;
    forall other | WellFormed(other) && IntOf(other) == Some(round as int)
      ensures |Encode(other)| >= |Encode(v)|
    {
      PackRoundIsShortest(round, other);
    }
  }

  lemma RoundValue(round: nat) returns (v: Value)
    requires round <= 0xffff
    ensures WellFormed(v) && (v.PosFixInt? || v.UInt?) && IntOf(v) == Some(round as int)
    ensures Encode(v) == PackRound(round)
  {
    Pow256Values();
    if round <= 0x7f {
      v := PosFixInt(round);
    } else if round <= 0xff {
      v := UInt(W8, [round]);
      OneByte([round], 0);
      assert [round][0..1] == [round];
    } else {
      v := UInt(W16, ToBigEndian(round, 2));
    }
    hide Pow256;
    hide ToBigEndian;
    hide BigEndian;
  }

  /** The chunks stand in the block one behind the other, in the order of their rounds. */
  ghost predicate IsBlock(k: Kdf, material: digest, rounds: nat, block: bytes)
    requires rounds <= 0x1_0000
  {
    && |block| == 256 * rounds
    && forall i :: 0 <= i < rounds ==> block[256 * i..256 * (i + 1)] == Chunk(k, material, i)
  }

  lemma {:induction false} BlockLayout(k: Kdf, material: digest, n: nat)
    requires n <= 0x1_0000
    ensures IsBlock(k, material, n, BlockPrefix(k, material, n))
  {
    hide Chunk;
    if n > 0 {
      BlockLayout(k, material, n - 1);
      var before, block := BlockPrefix(k, material, n - 1), BlockPrefix(k, material, n);
      forall i | 0 <= i < n
        ensures block[256 * i..256 * (i + 1)] == Chunk(k, material, i)
      {
        if i < n - 1 {
          assert block[256 * i..256 * (i + 1)] == before[256 * i..256 * (i + 1)];
        }
      }
    }
  }

  /** Nothing else is laid out like that. */
  lemma {:induction false} BlockUnique(k: Kdf, material: digest, n: nat, block: bytes)
    requires n <= 0x1_0000 && IsBlock(k, material, n, block)
    ensures block == BlockPrefix(k, material, n)
  {
    hide Chunk;
    if n > 0 {
      var before := block[..256 * (n - 1)];
      forall i | 0 <= i < n - 1
        ensures before[256 * i..256 * (i + 1)] == Chunk(k, material, i)
      {
        assert before[256 * i..256 * (i + 1)] == block[256 * i..256 * (i + 1)];
      }
      BlockUnique(k, material, n - 1, before);
      assert block == before + block[256 * (n - 1)..256 * n];
    }
  }

  /** What is streamed into the hash so far stands for the hash state. */
  class Workblock {
    const material: digest
    const rounds: nat
    var prefix: bytes
    var completed: nat

    ghost predicate Valid(k: Kdf)
      reads this
    {
      completed <= rounds <= 0xffff && prefix == BlockPrefix(k, material, completed)
    }

    constructor (ghost k: Kdf, material: digest, kind: StampKind)
      ensures Valid(k) && this.material == material && rounds == kind.Rounds() && completed == 0
    {
      this.material, rounds, prefix, completed := material, kind.Rounds(), [], 0;
    }

    /** At most `budget` rounds; exactly that many while rounds remain. */
    method Advance(k: Kdf, budget: nat) returns (ready: bool)
      requires Valid(k)
      modifies this
      ensures Valid(k)
      ensures completed == old(completed) + Least(budget, rounds - old(completed))
      ensures ready <==> completed == rounds
    {
      hide Chunk;
      for i := 0 to Least(budget, rounds - completed)
        invariant Valid(k) && completed == old(completed) + i
      {
        var next := DeriveChunk(k, material, completed);
        prefix := prefix + next;
        completed := completed + 1;
      }
      return completed == rounds;
    }

    static method DeriveChunk(k: Kdf, material: digest, round: nat) returns (next: chunk)
      requires round <= 0xffff
      ensures next == Chunk(k, material, round)
    {
      var packed := new byte[3](_ => 0);
      var n := PackRoundInto(round, packed);
      var salt := k.sha256(material + packed[..n]);
      next := k.expand(salt, material);
    }

    /** The leading zero bits of the block hashed with a stamp, once the block is complete. */
    method Value(k: Kdf, stamp: key32) returns (r: Option<nat>)
      requires Valid(k)
      ensures completed != rounds ==> r == None
      ensures completed == rounds ==> r == Some(ValueOf(k, material, rounds, stamp))
    {
      if completed != rounds {
        return None;
      }
      var digest := k.sha256(prefix + stamp);
      var value := 0;
      var i := 0;
      while i < |digest|
        invariant i <= |digest| && LeadingZeros(digest) == value + LeadingZeros(digest[i..])
      {
        assert digest[i..][1..] == digest[i + 1..];
        value := value + ByteZeros(digest[i]);
        if digest[i] != 0 {
          return Some(value);
        }
        i := i + 1;
      }
      return Some(value);
    }
  }

  function Least(a: nat, b: nat): nat {
    if a < b then a else b
  }

  function ValueOf(k: Kdf, material: digest, rounds: nat, stamp: key32): nat
    requires rounds <= 0xffff
  {
    LeadingZeros(k.sha256(BlockPrefix(k, material, rounds) + stamp))
  }

  // ---- leading zeros ----

  function ByteZeros(b: byte): nat {
    if b >= 0x80 then 0 else if b >= 0x40 then 1 else if b >= 0x20 then 2 else if b >= 0x10 then 3
    else if b >= 8 then 4 else if b >= 4 then 5 else if b >= 2 then 6 else if b == 1 then 7 else 8
  }

  function LeadingZeros(s: bytes): nat {
    if s == [] then 0 else if s[0] != 0 then ByteZeros(s[0]) else 8 + LeadingZeros(s[1..])
  }

  function Pow2(n: nat): (r: nat)
    ensures r > 0
  {
    if n == 0 then 1 else 2 * Pow2(n - 1)
  }

  lemma {:induction false} Pow2Add(a: nat, b: nat)
    ensures Pow2(a + b) == Pow2(a) * Pow2(b)
  {
    if a > 0 {
      Pow2Add(a - 1, b);
      Twice(Pow2(a - 1), Pow2(b));
    }
  }

  lemma Twice(x: nat, y: nat)
    ensures 2 * (x * y) == (2 * x) * y
  {
  }

  lemma {:induction false} Pow2IsPow256(n: nat)
    ensures Pow2(8 * n) == Pow256(n)
  {
    if n > 0 {
      Pow2IsPow256(n - 1);
      Pow2Add(8, 8 * (n - 1));
      ByteZerosMeaning(0, 0);
    }
  }

  lemma ByteZerosMeaning(b: byte, c: nat)
    requires c <= 8
    ensures ByteZeros(b) >= c <==> b < Pow2(8 - c)
    ensures Pow2(8) == 256
  {
    assert Pow2(1) == 2 && Pow2(2) == 4 && Pow2(3) == 8 && Pow2(4) == 16;
    assert Pow2(5) == 32 && Pow2(6) == 64 && Pow2(7) == 128 && Pow2(8) == 256;
  }

  /** At least `c` leading zeros means: as a big-endian number, below 2^(bits - c). */
  lemma {:induction false} LeadingZerosMeaning(s: bytes, c: nat)
    requires c <= 8 * |s|
    ensures LeadingZeros(s) >= c <==> BigEndian(s) < Pow2(8 * |s| - c)
  {
    if s != [] {
      var rest := |s| - 1;
      var unit := Pow256(rest);
      TopByte(s);
      Pow2IsPow256(rest);
      hide Pow2;
      hide Pow256;
      hide BigEndian;
      hide ByteZeros;
      if c <= 8 {
        FirstByteDecides(s, c, unit);
      } else if s[0] == 0 {
        LeadingZerosMeaning(s[1..], c - 8);
        assert s == Zeros(1) + s[1..];
        LeadingZeroBytes(1, s[1..]);
        assert 8 * |s| - c == 8 * |s[1..]| - (c - 8);
      } else {
        Pow2Add(c - 8, 8 * |s| - c);
        Product(Pow2(c - 8), Pow2(8 * |s| - c));
        Product(s[0], unit);
        assert unit == Pow2(c - 8 + (8 * |s| - c));
      }
    }
  }

  lemma FirstByteDecides(s: bytes, c: nat, unit: nat)
    requires s != [] && c <= 8 && unit == Pow256(|s| - 1) == Pow2(8 * (|s| - 1))
    requires s[0] * unit <= BigEndian(s) < ((s[0] as int) + 1) * unit
    ensures LeadingZeros(s) >= c <==> BigEndian(s) < Pow2(8 * |s| - c)
  {
    ByteZerosMeaning(s[0], c);
    Pow2Add(8 - c, 8 * (|s| - 1));
    assert 8 - c + 8 * (|s| - 1) == 8 * |s| - c;
    assert LeadingZeros(s) >= c <==> ByteZeros(s[0]) >= c;
    hide Pow2;
    hide BigEndian;
    hide ByteZeros;
    hide LeadingZeros;
    var bound := Pow2(8 - c);
    Compare(s[0], bound, unit, BigEndian(s));
  }

  lemma Compare(top: int, bound: int, unit: nat, n: nat)
    requires unit > 0 && top * unit <= n < (top + 1) * unit
    ensures top < bound <==> n < bound * unit
  {
    if top < bound {
      assert (top + 1) * unit <= bound * unit;
    } else {
      assert top * unit >= bound * unit;
    }
  }

  lemma Product(a: nat, b: nat)
    requires a >= 1
    ensures a * b >= b
  {
  }

  // ---- nonces ----

  /** One more, dropping the carry out of the top. */
  function Increment(s: bytes): (t: bytes)
    ensures |t| == |s|
  {
    if s == [] then
      []
    else
      var k := |s| - 1;
      if s[k] == 0xff then Increment(s[..k]) + [0] else s[..k] + [s[k] + 1]
  }

  lemma {:induction false} IncrementValue(s: bytes)
    ensures BigEndian(Increment(s)) == if BigEndian(s) + 1 == Pow256(|s|) then 0 else BigEndian(s) + 1
  {
    if s != [] {
      var k := |s| - 1;
      IncrementValue(s[..k]);
      BigEndianBound(s[..k]);
      assert Increment(s)[..k] == if s[k] == 0xff then Increment(s[..k]) else s[..k];
    }
  }

  /** The carry loop, from the last byte towards the first. */
  method IncrementInPlace(nonce: array<byte>)
    modifies nonce
    ensures nonce[..] == Increment(old(nonce[..]))
  {
    ghost var before := nonce[..];
    var i := nonce.Length;
    assert before[..i] == before && Zeros(0) == [];
    while i > 0
      invariant 0 <= i <= nonce.Length
      invariant nonce[..] == before[..i] + Zeros(nonce.Length - i)
      invariant Increment(before) == Increment(before[..i]) + Zeros(nonce.Length - i)
    {
      i := i - 1;
      ghost var low := before[..i + 1];
      assert low[..i] == before[..i] && low[i] == nonce[i];
      assert [0] + Zeros(nonce.Length - i - 1) == Zeros(nonce.Length - i);
      var carry := nonce[i] == 0xff;
      nonce[i] := if carry then 0 else nonce[i] + 1;
      if !carry {
        assert nonce[..] == before[..i] + [low[i] + 1] + Zeros(nonce.Length - i - 1);
        return;
      }
      assert before[..i] + [0] + Zeros(nonce.Length - i - 1) == before[..i] + Zeros(nonce.Length - i);
      assert Increment(before[..i]) + [0] + Zeros(nonce.Length - i - 1) == Increment(before[..i]) + Zeros(nonce.Length - i);
    }
    assert nonce[..] == Increment(before);
  }

  /** The i-th nonce of a search. */
  function NonceAt(seed: key32, i: nat): key32 {
    if i == 0 then seed else Increment(NonceAt(seed, i - 1))
  }

  lemma NonceStep(seed: key32, i: nat)
    requires i > 0
    ensures NonceAt(seed, i) == Increment(NonceAt(seed, i - 1))
    ensures BigEndian(NonceAt(seed, i))
         == if BigEndian(NonceAt(seed, i - 1)) + 1 == Pow256(32) then 0 else BigEndian(NonceAt(seed, i - 1)) + 1
  {
    hide Pow256;
    hide BigEndian;
    hide Increment;
    IncrementValue(NonceAt(seed, i - 1));
  }

  lemma NonceRange(seed: key32)
    ensures BigEndian(seed) < Pow256(32) && Pow256(32) > 1
  {
    BigEndianBound(seed);
    assert Pow256(32) == 256 * Pow256(31);
  }

  /** ... is seed + i, modulo 2^256. */
  lemma {:induction false} NonceIsSum(seed: key32, i: nat)
    ensures BigEndian(NonceAt(seed, i)) == (BigEndian(seed) + i) % Pow256(32)
  {
    NonceRange(seed);
    hide Pow256;
    hide BigEndian;
    if i > 0 {
      NonceIsSum(seed, i - 1);
      NonceStep(seed, i);
      hide NonceAt;
      StepMod(BigEndian(seed) + i - 1, Pow256(32));
    } else {
      ModUnique(BigEndian(seed), 0, BigEndian(seed), Pow256(32));
    }
  }

  lemma NoMultiple(m: int, k: int, e: int)
    requires m * k == e && -m < e < m
    ensures e == 0
  {
  }

  lemma ModUnique(x: nat, q: nat, r: nat, m: nat)
    requires r < m && x == m * q + r
    ensures x % m == r
  {
    var q2, r2 := x / m, x % m;
    assert x == m * q2 + r2;
    assert m * (q - q2) == r2 - r;
    NoMultiple(m, q - q2, r2 - r);
  }

  lemma StepMod(x: nat, m: nat)
    requires m > 1
    ensures (x + 1) % m == if x % m + 1 == m then 0 else x % m + 1
  {
    var q, r := x / m, x % m;
    assert x == m * q + r;
    if r + 1 == m {
      assert x + 1 == m * (q + 1);
      ModUnique(x + 1, q + 1, 0, m);
    } else {
      ModUnique(x + 1, q, r + 1, m);
    }
  }

  lemma SameResidue(x: nat, y: nat, m: nat)
    requires x <= y < x + m && x % m == y % m
    ensures x == y
  {
    assert y - x == m * (y / m - x / m);
    NoMultiple(m, y / m - x / m, y - x);
  }

  /** A search of at most 2^64 attempts never tries a nonce twice. */
  lemma NoncesDistinct(seed: key32, i: nat, j: nat)
    requires i < j <= 0x1_0000_0000_0000_0000
    ensures NonceAt(seed, i) != NonceAt(seed, j)
  {
    NonceIsSum(seed, i);
    NonceIsSum(seed, j);
    NonceSpace();
    hide *;
    if NonceAt(seed, i) == NonceAt(seed, j) {
      SameResidue(BigEndian(seed) + i, BigEndian(seed) + j, Pow256(32));
    }
  }

  lemma NonceSpace()
    ensures Pow256(32) > 0x1_0000_0000_0000_0000
  {
    Pow256Values();
    var p := Pow256(8);
    assert Pow256(32) > p by {
      PowGrows(8, 32);
    }
  }

  lemma {:induction false} PowGrows(a: nat, b: nat)
    requires a < b
    ensures Pow256(a) < Pow256(b)
    decreases b
  {
    if a < b - 1 {
      PowGrows(a, b - 1);
    }
  }
}
