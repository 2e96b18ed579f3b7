/** The bounded MessagePack walker, over unbounded integers, and what it accepts:
    exactly the encodings of the trees of `MessagePack`, nested no deeper than the limit. */
module Walker {
  import opened Bytes
  import opened MessagePack

  const MAX_DEPTH: nat := 8

  // ---- the walker ----

  /** `start + n`, bounded by the buffer. */
  function Body(data: bytes, start: nat, n: nat): Result<nat> {
    if start + n <= |data| then Ok(start + n) else Err(MalformedPayload)
  }

  /** An `nb`-byte big-endian length at `at`. */
  function LenAt(data: bytes, at: nat, nb: nat): Result<nat> {
    if at + nb <= |data| then Ok(BigEndian(data[at..at + nb])) else Err(MalformedPayload)
  }

  /** What the marker and length at a position announce. */
  datatype Head = Leaf(end: nat) | Items(start: nat, count: nat)

  function LeafAt(data: bytes, start: nat, n: nat): Result<Head> {
    var end :- Body(data, start, n);
    Ok(Leaf(end))
  }

  /** A string whose length is written in `nb` bytes at `p`. */
  function StringAt(data: bytes, p: nat, nb: nat): Result<Head> {
    var n :- LenAt(data, p, nb);
    LeafAt(data, p + nb, n)
  }

  function ArrayAt(data: bytes, p: nat, nb: nat): Result<Head> {
    var n :- LenAt(data, p, nb);
    Ok(Items(p + nb, n))
  }

  /** A map of n pairs is followed by 2n values. */
  function MapAt(data: bytes, p: nat, nb: nat): Result<Head> {
    var n :- LenAt(data, p, nb);
    Ok(Items(p + nb, 2 * n))
  }

  function ReadHead(data: bytes, pos: nat): (r: Result<Head>)
    requires pos < |data|
    ensures r.Err? ==> r.error == MalformedPayload
    ensures r.Ok? && r.value.Leaf? ==> pos < r.value.end <= |data|
    ensures r.Ok? && r.value.Items? ==> pos < r.value.start <= |data|
  {
    var b, p := data[pos], pos + 1;
    if b <= 0x7f || 0xe0 <= b || b == 0xc0 || b == 0xc2 || b == 0xc3 then Ok(Leaf(p))
    else if b == 0xcc || b == 0xd0 then LeafAt(data, p, 1)
    else if b == 0xcd || b == 0xd1 then LeafAt(data, p, 2)
    else if b == 0xca || b == 0xce || b == 0xd2 then LeafAt(data, p, 4)
    else if b == 0xcb || b == 0xcf || b == 0xd3 then LeafAt(data, p, 8)
    else if b == 0xc4 || b == 0xd9 then StringAt(data, p, 1)
    else if b == 0xc5 || b == 0xda then StringAt(data, p, 2)
    else if b == 0xc6 || b == 0xdb then StringAt(data, p, 4)
    else if 0xa0 <= b <= 0xbf then LeafAt(data, p, b % 32)
    else if 0x90 <= b <= 0x9f then Ok(Items(p, b % 16))
    else if 0x80 <= b <= 0x8f then Ok(Items(p, 2 * (b % 16)))
    else if b == 0xdc then ArrayAt(data, p, 2)
    else if b == 0xdd then ArrayAt(data, p, 4)
    else if b == 0xde then MapAt(data, p, 2)
    else if b == 0xdf then MapAt(data, p, 4)
    else Err(MalformedPayload)
  }

  /** Skip one value at `pos`; the end of it, or an error. */
  function SkipValue(data: bytes, pos: nat, depth: nat): (r: Result<nat>)
    ensures r.Err? ==> r.error == MalformedPayload
    ensures r.Ok? ==> pos < r.value <= |data|
    decreases MAX_DEPTH + 1 - depth, 1, 0
  {
    if depth > MAX_DEPTH || pos >= |data| then
      Err(MalformedPayload)
    else
      var head :- ReadHead(data, pos);
      match head
      case Leaf(end) => Ok(end)
      case Items(start, count) => SkipN(data, start, count, depth)
  }

  /** Skip `count` values one level below `depth`. */
  function SkipN(data: bytes, pos: nat, count: nat, depth: nat): (r: Result<nat>)
    requires depth <= MAX_DEPTH
    ensures r.Err? ==> r.error == MalformedPayload
    ensures r.Ok? ==> pos + count <= r.value && (pos <= |data| ==> r.value <= |data|)
    decreases MAX_DEPTH + 1 - depth, 0, count
  {
    if count == 0 then
      Ok(pos)
    else
      var next :- SkipValue(data, pos, depth + 1);
      SkipN(data, next, count - 1, depth)
  }

  // ---- everything that is an encoding is accepted ----

  lemma MarkerAndLength(
    data: bytes, pos: nat, form: Form, n: nat, fix: byte, fixMax: nat, m8: byte, m16: byte, m32: byte
  )
    requires form.Fits(n, fixMax) && fix + fixMax < 0x100
    requires At(data, pos, Prefix(form, n, fix, fixMax, m8, m16, m32))
    ensures data[pos] == (match form case Fix => fix + n case Len8 => m8 case Len16 => m16 case Len32 => m32)
    ensures form != Fix ==> LenAt(data, pos + 1, form.Size()) == Ok(n)
  {
    var h := Prefix(form, n, fix, fixMax, m8, m16, m32);
    assert data[pos] == data[pos..pos + |h|][0];
    if form != Fix {
      AtConcat(data, pos, [h[0]], ToBigEndian(n, form.Size()));
    }
  }

  lemma HeadOfScalar(data: bytes, pos: nat, v: Value)
    requires WellFormed(v) && !v.Array? && !v.Map? && !v.Str? && !v.Bin? && At(data, pos, Header(v))
    requires pos + |Header(v)| + |Payload(v)| <= |data|
    ensures ReadHead(data, pos) == Ok(Leaf(pos + |Header(v)| + |Payload(v)|))
  {
    assert data[pos] == data[pos..pos + |Header(v)|][0] == Header(v)[0];
  }

  lemma HeadOfStr(data: bytes, pos: nat, v: Value)
    requires NodeOk(v) && v.Str? && At(data, pos, Header(v))
    requires pos + |Header(v)| + |v.body| <= |data|
    ensures ReadHead(data, pos) == Ok(Leaf(pos + |Header(v)| + |v.body|))
  {
    MarkerAndLength(data, pos, v.form, |v.body|, 0xa0, 31, 0xd9, 0xda, 0xdb);
    assert |Header(v)| == 1 + v.form.Size();
    hide Header;
    hide Prefix;
    hide At;
    hide BigEndian;
    hide ToBigEndian;
    hide Pow256;
  }

  lemma HeadOfBin(data: bytes, pos: nat, v: Value)
    requires NodeOk(v) && v.Bin? && At(data, pos, Header(v))
    requires pos + |Header(v)| + |v.body| <= |data|
    ensures ReadHead(data, pos) == Ok(Leaf(pos + |Header(v)| + |v.body|))
  {
    MarkerAndLength(data, pos, v.form, |v.body|, 0, 0, 0xc4, 0xc5, 0xc6);
    assert |Header(v)| == 1 + v.form.Size();
    hide Header;
    hide Prefix;
    hide At;
    hide BigEndian;
    hide ToBigEndian;
    hide Pow256;
  }

  lemma HeadOfArray(data: bytes, pos: nat, v: Value)
    requires NodeOk(v) && v.Array? && At(data, pos, Header(v))
    ensures ReadHead(data, pos) == Ok(Items(pos + |Header(v)|, |v.items|))
  {
    MarkerAndLength(data, pos, v.form, |v.items|, 0x90, 15, 0, 0xdc, 0xdd);
    hide BigEndian;
    hide ToBigEndian;
    hide Pow256;
  }

  lemma HeadOfMap(data: bytes, pos: nat, v: Value)
    requires NodeOk(v) && v.Map? && At(data, pos, Header(v))
    ensures ReadHead(data, pos) == Ok(Items(pos + |Header(v)|, |v.items|))
  {
    MarkerAndLength(data, pos, v.form, |v.items| / 2, 0x80, 15, 0, 0xde, 0xdf);
    hide BigEndian;
    hide ToBigEndian;
    hide Pow256;
  }

  /** An encoding is skipped, and exactly it, just when it fits under the depth limit. */
  lemma {:induction false} SkipEncoded(data: bytes, pos: nat, depth: nat, v: Value)
    requires WellFormed(v) && At(data, pos, Encode(v))
    ensures SkipValue(data, pos, depth)
         == if depth + Nesting(v) <= MAX_DEPTH then Ok(pos + |Encode(v)|) else Err(MalformedPayload)
    decreases v
  {
    hide ReadHead;
    hide Header;
    AtConcat(data, pos, Header(v), Payload(v));
    match v {
      case Array(_, items) =>
        HeadOfArray(data, pos, v);
        if depth <= MAX_DEPTH {
          SkipNEncoded(data, pos + |Header(v)|, depth, items);
        }
      case Map(_, items) =>
        HeadOfMap(data, pos, v);
        if depth <= MAX_DEPTH {
          SkipNEncoded(data, pos + |Header(v)|, depth, items);
        }
      case Str(_, _) => HeadOfStr(data, pos, v);
      case Bin(_, _) => HeadOfBin(data, pos, v);
      case _ => HeadOfScalar(data, pos, v);
    }
  }

  lemma {:induction false} SkipNEncoded(data: bytes, pos: nat, depth: nat, vs: seq<Value>)
    requires depth <= MAX_DEPTH && AllWellFormed(vs) && At(data, pos, EncodeAll(vs))
    ensures SkipN(data, pos, |vs|, depth)
         == if depth + NestingInside(vs) <= MAX_DEPTH then Ok(pos + |EncodeAll(vs)|) else Err(MalformedPayload)
    decreases vs
  {
    hide SkipValue;
    hide Encode;
    hide Nesting;
    if vs != [] {
      AtConcat(data, pos, Encode(vs[0]), EncodeAll(vs[1..]));
      SkipEncoded(data, pos, depth + 1, vs[0]);
      SkipNEncoded(data, pos + |Encode(vs[0])|, depth, vs[1..]);
    }
  }

  // ---- everything that is accepted is an encoding ----

  lemma ScalarFrom(data: bytes, pos: nat) returns (v: Value)
    requires pos < |data| && ReadHead(data, pos).Ok? && ReadHead(data, pos).value.Leaf?
    requires var b := data[pos]; !(0xa0 <= b <= 0xbf) && !(0xc4 <= b <= 0xc6) && !(0xd9 <= b <= 0xdb)
    ensures WellFormed(v) && Nesting(v) == 0 && Encode(v) == data[pos..ReadHead(data, pos).value.end]
  {
    var b, end := data[pos], ReadHead(data, pos).value.end;
    var body := data[pos + 1..end];
    v := if b <= 0x7f then PosFixInt(b)
         else if 0xe0 <= b then NegFixInt((b as int) - 0x100)
         else if b == 0xc0 then Nil
         else if b == 0xc2 || b == 0xc3 then Bool(b == 0xc3)
         else if b == 0xca then Float(W32, body)
         else if b == 0xcb then Float(W64, body)
         else if b == 0xcc then UInt(W8, body)
         else if b == 0xcd then UInt(W16, body)
         else if b == 0xce then UInt(W32, body)
         else if b == 0xcf then UInt(W64, body)
         else if b == 0xd0 then SInt(W8, body)
         else if b == 0xd1 then SInt(W16, body)
         else if b == 0xd2 then SInt(W32, body)
         else SInt(W64, body);
    assert data[pos..end] == [b] + body;
  }

  /** The form a string or container marker selects. */
  function FormOf(b: byte): Form {
    if b <= 0xbf then Fix
    else if b == 0xc4 || b == 0xd9 then Len8
    else if b == 0xc5 || b == 0xda || b == 0xdc || b == 0xde then Len16
    else Len32
  }

  lemma PrefixFrom(data: bytes, pos: nat, form: Form, fix: byte, fixMax: nat, m8: byte, m16: byte, m32: byte)
    returns (n: nat)
    requires pos + 1 + form.Size() <= |data| && fix + fixMax < 0x100
    requires data[pos] == (match form case Fix => data[pos] case Len8 => m8 case Len16 => m16 case Len32 => m32)
    requires form == Fix ==> fix <= data[pos] <= fix + fixMax
    ensures form != Fix ==> LenAt(data, pos + 1, form.Size()) == Ok(n)
    ensures form == Fix ==> n == data[pos] - fix
    ensures form.Fits(n, fixMax)
    ensures Prefix(form, n, fix, fixMax, m8, m16, m32) == data[pos..pos + 1 + form.Size()]
  {
    var length := data[pos + 1..pos + 1 + form.Size()];
    assert data[pos..pos + 1 + form.Size()] == [data[pos]] + length;
    if form == Fix {
      n := data[pos] - fix;
    } else {
      ToBigEndianOf(length);
      n := BigEndian(length);
    }
  }

  lemma StringHead(data: bytes, pos: nat)
    requires pos < |data| && ReadHead(data, pos).Ok? && ReadHead(data, pos).value.Leaf?
    requires var b := data[pos]; 0xa0 <= b <= 0xbf || 0xc4 <= b <= 0xc6 || 0xd9 <= b <= 0xdb
    ensures var form, end := FormOf(data[pos]), ReadHead(data, pos).value.end;
            && pos + 1 + form.Size() <= end <= |data|
            && (if form == Fix then end == pos + 1 + data[pos] - 0xa0
                else LenAt(data, pos + 1, form.Size()) == Ok(end - pos - 1 - form.Size()))
  {
  }

  lemma StringFrom(data: bytes, pos: nat) returns (v: Value)
    requires pos < |data| && ReadHead(data, pos).Ok? && ReadHead(data, pos).value.Leaf?
    requires var b := data[pos]; 0xa0 <= b <= 0xbf || 0xc4 <= b <= 0xc6 || 0xd9 <= b <= 0xdb
    ensures WellFormed(v) && Nesting(v) == 0 && Encode(v) == data[pos..ReadHead(data, pos).value.end]
  {
    StringHead(data, pos);
    hide ReadHead;
    hide Prefix;
    hide Form.Fits;
    var form, end := FormOf(data[pos]), ReadHead(data, pos).value.end;
    var start := pos + 1 + form.Size();
    assert data[pos..end] == data[pos..start] + data[start..end];
    if 0xc4 <= data[pos] <= 0xc6 {
      var n := PrefixFrom(data, pos, form, 0, 0, 0xc4, 0xc5, 0xc6);
      v := Bin(form, data[start..end]);
      StringEncoding(v, data[pos..start]);
    } else {
      var n := PrefixFrom(data, pos, form, 0xa0, 31, 0xd9, 0xda, 0xdb);
      v := Str(form, data[start..end]);
      StringEncoding(v, data[pos..start]);
    }
  }

  lemma StringEncoding(v: Value, header: bytes)
    requires v.Str? || v.Bin?
    requires v.Str? ==> v.form.Fits(|v.body|, 31) && header == Prefix(v.form, |v.body|, 0xa0, 31, 0xd9, 0xda, 0xdb)
    requires v.Bin? ==> v.form != Fix && v.form.Fits(|v.body|, 0)
    requires v.Bin? ==> header == Prefix(v.form, |v.body|, 0, 0, 0xc4, 0xc5, 0xc6)
    ensures WellFormed(v) && Nesting(v) == 0 && Encode(v) == header + v.body
  {
    hide Prefix;
    hide Form.Fits;
  }

  lemma ContainerHead(data: bytes, pos: nat)
    requires pos < |data| && ReadHead(data, pos).Ok? && ReadHead(data, pos).value.Items?
    ensures var b, form, head := data[pos], FormOf(data[pos]), ReadHead(data, pos).value;
            && (0x80 <= b <= 0x9f || 0xdc <= b <= 0xdf)
            && head.start == pos + 1 + form.Size() <= |data|
            && (if form == Fix then head.count == (if b <= 0x8f then 2 * (b - 0x80) else b - 0x90)
                else LenAt(data, pos + 1, form.Size()) == Ok(if b <= 0xdd then head.count else head.count / 2))
            && ((b <= 0x8f || 0xde <= b) ==> head.count % 2 == 0)
  {
  }

  lemma ContainerFrom(data: bytes, pos: nat, items: seq<Value>) returns (v: Value)
    requires pos < |data| && ReadHead(data, pos).Ok? && ReadHead(data, pos).value.Items?
    requires |items| == ReadHead(data, pos).value.count && AllWellFormed(items)
    ensures (v.Array? || v.Map?) && v.items == items && WellFormed(v)
    ensures Encode(v) == data[pos..ReadHead(data, pos).value.start] + EncodeAll(items)
  {
    ContainerHead(data, pos);
    hide ReadHead;
    hide Prefix;
    var b, form := data[pos], FormOf(data[pos]);
    if 0x90 <= b <= 0x9f || b == 0xdc || b == 0xdd {
      var n := PrefixFrom(data, pos, form, 0x90, 15, 0, 0xdc, 0xdd);
      v := Array(form, items);
    } else {
      var n := PrefixFrom(data, pos, form, 0x80, 15, 0, 0xde, 0xdf);
      v := Map(form, items);
    }
  }

  /** Soundness: what is skipped is the encoding of a tree within the depth limit. */
  lemma {:induction false} SkipSound(data: bytes, pos: nat, depth: nat) returns (v: Value)
    requires SkipValue(data, pos, depth).Ok?
    ensures WellFormed(v) && depth + Nesting(v) <= MAX_DEPTH
    ensures Encode(v) == data[pos..SkipValue(data, pos, depth).value]
    decreases MAX_DEPTH + 1 - depth, 1, 0
  {
    hide ReadHead;
    hide Header;
    var b := data[pos];
    match ReadHead(data, pos).value {
      case Leaf(end) =>
        if 0xa0 <= b <= 0xbf || 0xc4 <= b <= 0xc6 || 0xd9 <= b <= 0xdb {
          v := StringFrom(data, pos);
        } else {
          v := ScalarFrom(data, pos);
        }
      case Items(start, count) =>
        var items := SkipNSound(data, start, count, depth);
        v := ContainerFrom(data, pos, items);
        var end := SkipValue(data, pos, depth).value;
        assert data[pos..end] == data[pos..start] + data[start..end];
    }
  }

  lemma {:induction false} SkipNSound(data: bytes, pos: nat, count: nat, depth: nat) returns (vs: seq<Value>)
    requires pos <= |data| && depth <= MAX_DEPTH && SkipN(data, pos, count, depth).Ok?
    ensures |vs| == count && AllWellFormed(vs) && depth + NestingInside(vs) <= MAX_DEPTH
    ensures EncodeAll(vs) == data[pos..SkipN(data, pos, count, depth).value]
    decreases MAX_DEPTH + 1 - depth, 0, count
  {
    hide SkipValue;
    hide Encode;
    hide Nesting;
    hide WellFormed;
    vs := [];
    if count > 0 {
      var next := SkipValue(data, pos, depth + 1).value;
      var head := SkipSound(data, pos, depth + 1);
      var tail := SkipNSound(data, next, count - 1, depth);
      vs := [head] + tail;
      assert vs[0] == head && vs[1..] == tail;
      var end := SkipN(data, pos, count, depth).value;
      assert data[pos..end] == data[pos..next] + data[next..end];
    }
  }

  // ---- the walker is the grammar ----

  /** `data[pos..end]` is the encoding of `v`, which opens no level past the limit. */
  ghost predicate Denotes(v: Value, data: bytes, pos: nat, end: nat, depth: nat) {
    pos <= end <= |data| && WellFormed(v) && Encode(v) == data[pos..end] && depth + Nesting(v) <= MAX_DEPTH
  }

  lemma SkipIsGrammar(data: bytes, pos: nat, depth: nat, end: nat)
    ensures SkipValue(data, pos, depth) == Ok(end) <==> exists v :: Denotes(v, data, pos, end, depth)
  {
    hide SkipValue;
    hide Encode;
    hide WellFormed;
    if SkipValue(data, pos, depth) == Ok(end) {
      var v := SkipSound(data, pos, depth);
      assert Denotes(v, data, pos, end, depth);
    }
    if v :| Denotes(v, data, pos, end, depth) {
      SkipEncoded(data, pos, depth, v);
    }
  }

  /** A successful skip depends on nothing but the bytes it consumed, wherever they stand and
      whatever follows, and stays successful one or more levels further out. */
  lemma SkipLocal(data: bytes, pos: nat, depth: nat, other: bytes, at: nat, outer: nat)
    requires SkipValue(data, pos, depth).Ok? && outer <= depth
    requires At(other, at, data[pos..SkipValue(data, pos, depth).value])
    ensures SkipValue(other, at, outer) == Ok(at + SkipValue(data, pos, depth).value - pos)
  {
    hide SkipValue;
    hide Encode;
    hide WellFormed;
    var v := SkipSound(data, pos, depth);
    SkipEncoded(other, at, outer, v);
  }
}
