/** The walker as the code runs it: `usize` arithmetic that is checked at the machine's width,
    loops in place of recursion over items, and a count of its own invocations. It returns what
    the walker over unbounded integers returns, on every machine of at least 32 bits. */
module CheckedWalker {
  import opened Bytes
  import opened Walker

  // ---- machine arithmetic ----

  /** A machine of at least 32 bits, and a slice it can hold (at most `isize::MAX` bytes). */
  predicate Fits(usizeMax: nat, data: bytes) {
    usizeMax >= 0xFFFF_FFFF && |data| <= usizeMax / 2
  }

  function CheckedAdd(usizeMax: nat, a: nat, b: nat): Option<nat> {
    if a + b <= usizeMax then Some(a + b) else None
  }

  function CheckedMul(usizeMax: nat, a: nat, b: nat): Option<nat> {
    if a * b <= usizeMax then Some(a * b) else None
  }

  /** Shifting left by one byte drops the bits that leave the word. */
  function ShiftLeft8(usizeMax: nat, v: nat): nat {
    v * 0x100 % (usizeMax + 1)
  }

  function CheckedBody(usizeMax: nat, data: bytes, start: nat, n: nat): Result<nat> {
    match CheckedAdd(usizeMax, start, n)
    case Some(end) => if end <= |data| then Ok(end) else Err(MalformedPayload)
    case None => Err(MalformedPayload)
  }

  // ---- the code ----

  method CheckedLenAt(usizeMax: nat, data: bytes, at: nat, nb: nat) returns (r: Result<nat>)
    requires Fits(usizeMax, data) && at <= |data| && nb <= 4
    ensures r == LenAt(data, at, nb)
  {
    var end :- CheckedBody(usizeMax, data, at, nb);
    var v := 0;
    Pow256Values();
    for i := at to end
      invariant v == BigEndian(data[at..i])
    {
      assert data[at..i + 1][..i - at] == data[at..i];
      BigEndianBound(data[at..i + 1]);
      PowMonotone(i + 1 - at, 4);
      ShiftKeeps(usizeMax, v);
      match CheckedAdd(usizeMax, ShiftLeft8(usizeMax, v), data[i]) {
        case Some(sum) => v := sum;
        case None => return Err(MalformedPayload);
      }
    }
    return Ok(v);
  }

  lemma SmallMod(x: nat, m: nat)
    requires x < m
    ensures x % m == x
  {
  }

  lemma ShiftKeeps(usizeMax: nat, v: nat)
    requires v * 0x100 <= usizeMax
    ensures ShiftLeft8(usizeMax, v) == v * 0x100
  {
    var x := v * 0x100;
    SmallMod(x, usizeMax + 1);
  }

  lemma {:induction false} PowMonotone(a: nat, b: nat)
    requires a <= b
    ensures Pow256(a) <= Pow256(b)
    decreases b
  {
    if a < b {
      PowMonotone(a, b - 1);
    }
  }

  predicate ContainerMarker(b: byte) {
    0x80 <= b <= 0x9f || 0xdc <= b <= 0xdf
  }

  /** The arms for values without items. */
  method CheckedLeaf(usizeMax: nat, data: bytes, pos: nat) returns (r: Result<nat>)
    requires Fits(usizeMax, data) && pos < |data| && !ContainerMarker(data[pos])
    ensures ReadHead(data, pos) == (match r case Ok(end) => Ok(Leaf(end)) case Err(e) => Err(e))
  {
    var b, p := data[pos], pos + 1;
    if b <= 0x7f || 0xe0 <= b || b == 0xc0 || b == 0xc2 || b == 0xc3 {
      r := Ok(p);
    } else if b == 0xcc || b == 0xd0 {
      r := CheckedBody(usizeMax, data, p, 1);
    } else if b == 0xcd || b == 0xd1 {
      r := CheckedBody(usizeMax, data, p, 2);
    } else if b == 0xca || b == 0xce || b == 0xd2 {
      r := CheckedBody(usizeMax, data, p, 4);
    } else if b == 0xcb || b == 0xcf || b == 0xd3 {
      r := CheckedBody(usizeMax, data, p, 8);
    } else if b == 0xc4 || b == 0xd9 {
      var n :- CheckedLenAt(usizeMax, data, p, 1);
      r := CheckedBody(usizeMax, data, p + 1, n);
    } else if b == 0xc5 || b == 0xda {
      var n :- CheckedLenAt(usizeMax, data, p, 2);
      r := CheckedBody(usizeMax, data, p + 2, n);
    } else if b == 0xc6 || b == 0xdb {
      var n :- CheckedLenAt(usizeMax, data, p, 4);
      r := CheckedBody(usizeMax, data, p + 4, n);
    } else if 0xa0 <= b <= 0xbf {
      r := CheckedBody(usizeMax, data, p, b % 32);
    } else {
      r := Err(MalformedPayload);
    }
  }

  /** `calls` counts the invocations of this method, itself included: a skip costs at most one
      call a byte, whatever element counts the bytes claim. */
  method CheckedSkipValue(usizeMax: nat, data: bytes, pos: nat, depth: nat)
    returns (r: Result<nat>, ghost calls: nat)
    requires Fits(usizeMax, data)
    ensures r == SkipValue(data, pos, depth)
    ensures r.Ok? ==> calls <= r.value - pos
    ensures pos <= |data| ==> calls <= |data| - pos + 1
    decreases MAX_DEPTH + 1 - depth, 1
  {
    calls := 1;
    if depth > MAX_DEPTH || pos >= |data| {
      return Err(MalformedPayload), calls;
    }
    if ContainerMarker(data[pos]) {
      ghost var inner;
      r, inner := CheckedContainer(usizeMax, data, pos, depth);
      calls := calls + inner;
    } else {
      hide ReadHead;
      r := CheckedLeaf(usizeMax, data, pos);
    }
  }

  /** The arms for arrays and maps. */
  method CheckedContainer(usizeMax: nat, data: bytes, pos: nat, depth: nat)
    returns (r: Result<nat>, ghost calls: nat)
    requires Fits(usizeMax, data) && pos < |data| && depth <= MAX_DEPTH && ContainerMarker(data[pos])
    ensures r == SkipValue(data, pos, depth)
    ensures if r.Ok? then calls < r.value - pos else calls <= |data| - pos
    decreases MAX_DEPTH + 1 - depth, 0, 2
  {
    hide Walker.SkipN;
    var b, p := data[pos], pos + 1;
    calls := 0;
    if 0x90 <= b <= 0x9f {
      r, calls := CheckedSkipN(usizeMax, data, p, b % 16, depth);
    } else if 0x80 <= b <= 0x8f {
      r, calls := CheckedSkipN(usizeMax, data, p, 2 * (b % 16), depth);
    } else if b == 0xdc {
      var n :- CheckedLenAt(usizeMax, data, p, 2);
      r, calls := CheckedSkipN(usizeMax, data, p + 2, n, depth);
    } else if b == 0xdd {
      var n :- CheckedLenAt(usizeMax, data, p, 4);
      r, calls := CheckedSkipN(usizeMax, data, p + 4, n, depth);
    } else if b == 0xde {
      var n :- CheckedLenAt(usizeMax, data, p, 2);
      r, calls := CheckedSkipPairs(usizeMax, data, p + 2, n, depth);
    } else {
      var n :- CheckedLenAt(usizeMax, data, p, 4);
      r, calls := CheckedSkipPairs(usizeMax, data, p + 4, n, depth);
    }
  }

  /** A map's count is doubled first; a count whose double leaves the word is refused, and the
      walker over unbounded integers refuses it too, for want of bytes. */
  method CheckedSkipPairs(usizeMax: nat, data: bytes, pos: nat, n: nat, depth: nat)
    returns (r: Result<nat>, ghost calls: nat)
    requires Fits(usizeMax, data) && pos <= |data| && depth <= MAX_DEPTH
    ensures r == SkipN(data, pos, 2 * n, depth)
    ensures if r.Ok? then calls <= r.value - pos else calls <= |data| - pos + 1
    decreases MAX_DEPTH + 1 - depth, 0, 1
  {
    match CheckedMul(usizeMax, n, 2) {
      case Some(count) => r, calls := CheckedSkipN(usizeMax, data, pos, count, depth);
      case None =>
        assert SkipN(data, pos, 2 * n, depth).Err?;
        r, calls := Err(MalformedPayload), 0;
    }
  }

  method CheckedSkipN(usizeMax: nat, data: bytes, start: nat, count: nat, depth: nat)
    returns (r: Result<nat>, ghost calls: nat)
    requires Fits(usizeMax, data) && start <= |data| && depth <= MAX_DEPTH
    ensures r == SkipN(data, start, count, depth)
    ensures if r.Ok? then calls <= r.value - start else calls <= |data| - start + 1
    decreases MAX_DEPTH + 1 - depth, 0, 0
  {
    hide SkipValue;
    var pos := start;
    calls := 0;
    for i := 0 to count
      invariant start <= pos <= |data| && calls <= pos - start
      invariant SkipN(data, start, count, depth) == SkipN(data, pos, count - i, depth)
    {
      var item, inner := CheckedSkipValue(usizeMax, data, pos, depth + 1);
      calls := calls + inner;
      pos :- item;
    }
    return Ok(pos), calls;
  }
}
