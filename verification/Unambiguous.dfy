/** No byte string begins with the encodings of two different trees. */
module Unambiguous {
  import opened Bytes
  import opened MessagePack
  import opened Walker

  /** A tree without its bodies and items: what the marker alone decides. */
  function Skeleton(v: Value): Value {
    match v
    case UInt(w, _) => UInt(w, [])
    case SInt(w, _) => SInt(w, [])
    case Float(w, _) => Float(w, [])
    case Str(form, _) => Str(form, [])
    case Bin(form, _) => Bin(form, [])
    case Array(form, _) => Array(form, [])
    case Map(form, _) => Map(form, [])
    case _ => v
  }

  function SkeletonOf(b: byte): Value {
    if b <= 0x7f then PosFixInt(b)
    else if b <= 0x8f then Map(Fix, [])
    else if b <= 0x9f then Array(Fix, [])
    else if b <= 0xbf then Str(Fix, [])
    else if b == 0xc2 || b == 0xc3 then Bool(b == 0xc3)
    else if b == 0xc4 then Bin(Len8, [])
    else if b == 0xc5 then Bin(Len16, [])
    else if b == 0xc6 then Bin(Len32, [])
    else if b == 0xca then Float(W32, [])
    else if b == 0xcb then Float(W64, [])
    else if b == 0xcc then UInt(W8, [])
    else if b == 0xcd then UInt(W16, [])
    else if b == 0xce then UInt(W32, [])
    else if b == 0xcf then UInt(W64, [])
    else if b == 0xd0 then SInt(W8, [])
    else if b == 0xd1 then SInt(W16, [])
    else if b == 0xd2 then SInt(W32, [])
    else if b == 0xd3 then SInt(W64, [])
    else if b == 0xd9 then Str(Len8, [])
    else if b == 0xda then Str(Len16, [])
    else if b == 0xdb then Str(Len32, [])
    else if b == 0xdc then Array(Len16, [])
    else if b == 0xdd then Array(Len32, [])
    else if b == 0xde then Map(Len16, [])
    else if b == 0xdf then Map(Len32, [])
    else if b >= 0xe0 then NegFixInt((b as int) - 0x100)
    else Nil
  }

  lemma MarkerIsSkeleton(v: Value)
    requires NodeOk(v)
    ensures SkeletonOf(Header(v)[0]) == Skeleton(v)
  {
    hide Pow256;
    hide ToBigEndian;
  }

  lemma HeaderLength(v: Value)
    requires NodeOk(v)
    ensures |Header(v)| == 1 + if v.Str? || v.Bin? || v.Array? || v.Map? then v.form.Size() else 0
  {
    hide Pow256;
    hide ToBigEndian;
  }

  lemma MarkerDecidesShape(a: Value, b: Value)
    requires NodeOk(a) && NodeOk(b) && Header(a)[0] == Header(b)[0]
    ensures Skeleton(a) == Skeleton(b) && |Header(a)| == |Header(b)|
  {
    hide *;
    MarkerIsSkeleton(a);
    MarkerIsSkeleton(b);
    SkeletonForm(a, b);
    HeaderLength(a);
    HeaderLength(b);
  }

  lemma SkeletonForm(a: Value, b: Value)
    requires Skeleton(a) == Skeleton(b)
    ensures a.Str? == b.Str? && a.Bin? == b.Bin? && a.Array? == b.Array? && a.Map? == b.Map?
    ensures a.Str? || a.Bin? || a.Array? || a.Map? ==> a.form == b.form
  {
  }

  /** What the walker reads at the head of an encoding. */
  lemma HeadOfEncoding(data: bytes, pos: nat, v: Value)
    requires WellFormed(v) && At(data, pos, Encode(v))
    ensures data[pos] == Header(v)[0]
    ensures if v.Array? || v.Map?
            then ReadHead(data, pos) == Ok(Items(pos + |Header(v)|, |v.items|))
            else ReadHead(data, pos) == Ok(Leaf(pos + |Encode(v)|))
  {
    hide ReadHead;
    hide Header;
    AtConcat(data, pos, Header(v), Payload(v));
    assert data[pos] == data[pos..pos + |Header(v)|][0];
    match v {
      case Array(_, _) => HeadOfArray(data, pos, v);
      case Map(_, _) => HeadOfMap(data, pos, v);
      case Str(_, _) => HeadOfStr(data, pos, v);
      case Bin(_, _) => HeadOfBin(data, pos, v);
      case _ => HeadOfScalar(data, pos, v);
    }
  }

  lemma {:induction false} OneTree(data: bytes, pos: nat, a: Value, b: Value)
    requires WellFormed(a) && WellFormed(b) && At(data, pos, Encode(a)) && At(data, pos, Encode(b))
    ensures a == b
    decreases a
  {
    hide ReadHead;
    hide Header;
    HeadOfEncoding(data, pos, a);
    HeadOfEncoding(data, pos, b);
    MarkerDecidesShape(a, b);
    AtConcat(data, pos, Header(a), Payload(a));
    AtConcat(data, pos, Header(b), Payload(b));
    if a.Array? || a.Map? {
      OneTreeList(data, pos + |Header(a)|, a.items, b.items);
    }
  }

  lemma {:induction false} OneTreeList(data: bytes, pos: nat, a: seq<Value>, b: seq<Value>)
    requires |a| == |b| && AllWellFormed(a) && AllWellFormed(b)
    requires At(data, pos, EncodeAll(a)) && At(data, pos, EncodeAll(b))
    ensures a == b
    decreases a
  {
    hide Encode;
    hide WellFormed;
    if a != [] {
      AtConcat(data, pos, Encode(a[0]), EncodeAll(a[1..]));
      AtConcat(data, pos, Encode(b[0]), EncodeAll(b[1..]));
      OneTree(data, pos, a[0], b[0]);
      OneTreeList(data, pos + |Encode(a[0])|, a[1..], b[1..]);
      assert a == [a[0]] + a[1..] && b == [b[0]] + b[1..];
    }
  }
}
