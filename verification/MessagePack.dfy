/** Concrete syntax of MessagePack, section "Formats" of its specification, without the
    extension types: every tree denotes exactly one byte string. */
module MessagePack {
  import opened Bytes

  datatype Width = W8 | W16 | W32 | W64 {
    function Size(): nat {
      match this
      case W8 => 1
      case W16 => 2
      case W32 => 4
      case W64 => 8
    }
  }

  /** Where a length is written: inside the marker, or in 1, 2 or 4 bytes after it. */
  datatype Form = Fix | Len8 | Len16 | Len32 {
    function Size(): nat {
      match this
      case Fix => 0
      case Len8 => 1
      case Len16 => 2
      case Len32 => 4
    }

    /** Whether this form can write the length `n`, when a marker holds at most `fixMax`. */
    predicate Fits(n: nat, fixMax: nat) {
      if Fix? then n <= fixMax else n < Pow256(Size())
    }
  }

  /** A map lists its keys and values alternately. */
  datatype Value =
    | PosFixInt(n: int)
    | NegFixInt(n: int)
    | Nil
    | Bool(b: bool)
    | UInt(w: Width, body: bytes)
    | SInt(w: Width, body: bytes)
    | Float(w: Width, body: bytes)
    | Str(form: Form, body: bytes)
    | Bin(form: Form, body: bytes)
    | Array(form: Form, items: seq<Value>)
    | Map(form: Form, items: seq<Value>)

  /** The ranges the formats impose on one node. */
  predicate NodeOk(v: Value) {
    match v
    case PosFixInt(n) => 0 <= n <= 0x7f
    case NegFixInt(n) => -0x20 <= n <= -1
    case Nil => true
    case Bool(_) => true
    case UInt(w, body) => |body| == w.Size()
    case SInt(w, body) => |body| == w.Size()
    case Float(w, body) => (w == W32 || w == W64) && |body| == w.Size()
    case Str(form, body) => form.Fits(|body|, 31)
    case Bin(form, body) => form != Fix && form.Fits(|body|, 0)
    case Array(form, items) => form != Len8 && form.Fits(|items|, 15)
    case Map(form, items) => form != Len8 && |items| % 2 == 0 && form.Fits(|items| / 2, 15)
  }

  predicate WellFormed(v: Value) {
    NodeOk(v) &&
    match v
    case Array(_, items) => AllWellFormed(items)
    case Map(_, items) => AllWellFormed(items)
    case _ => true
  }

  predicate AllWellFormed(vs: seq<Value>) {
    vs == [] || (WellFormed(vs[0]) && AllWellFormed(vs[1..]))
  }

  /** The marker and the bytes of the length. */
  function Header(v: Value): (h: bytes)
    requires NodeOk(v)
    ensures |h| >= 1
  {
    match v
    case PosFixInt(n) => [n]
    case NegFixInt(n) => [0x100 + n]
    case Nil => [0xc0]
    case Bool(b) => [if b then 0xc3 else 0xc2]
    case UInt(w, _) => [match w case W8 => 0xcc case W16 => 0xcd case W32 => 0xce case W64 => 0xcf]
    case SInt(w, _) => [match w case W8 => 0xd0 case W16 => 0xd1 case W32 => 0xd2 case W64 => 0xd3]
    case Float(w, _) => [if w == W32 then 0xca else 0xcb]
    case Str(form, body) => Prefix(form, |body|, 0xa0, 31, 0xd9, 0xda, 0xdb)
    case Bin(form, body) => Prefix(form, |body|, 0, 0, 0xc4, 0xc5, 0xc6)
    case Array(form, items) => Prefix(form, |items|, 0x90, 15, 0, 0xdc, 0xdd)
    case Map(form, items) => Prefix(form, |items| / 2, 0x80, 15, 0, 0xde, 0xdf)
  }

  function Prefix(form: Form, n: nat, fix: byte, fixMax: nat, m8: byte, m16: byte, m32: byte): (h: bytes)
    requires form.Fits(n, fixMax) && fix + fixMax < 0x100
    ensures |h| == 1 + form.Size()
  {
    match form
    case Fix => [fix + n]
    case Len8 => [m8] + ToBigEndian(n, 1)
    case Len16 => [m16] + ToBigEndian(n, 2)
    case Len32 => [m32] + ToBigEndian(n, 4)
  }

  function Encode(v: Value): (s: bytes)
    requires WellFormed(v)
    ensures |s| >= 1
    decreases v, 1
  {
    Header(v) + Payload(v)
  }

  /** What follows the header. */
  function Payload(v: Value): (s: bytes)
    requires WellFormed(v)
    decreases v, 0
  {
    match v
    case UInt(_, body) => body
    case SInt(_, body) => body
    case Float(_, body) => body
    case Str(_, body) => body
    case Bin(_, body) => body
    case Array(_, items) => EncodeAll(items)
    case Map(_, items) => EncodeAll(items)
    case _ => []
  }

  function EncodeAll(vs: seq<Value>): (s: bytes)
    requires AllWellFormed(vs)
    ensures |s| >= |vs|
    decreases vs
  {
    if vs == [] then [] else Encode(vs[0]) + EncodeAll(vs[1..])
  }

  /** How many levels of non-empty containers `v` opens. */
  function Nesting(v: Value): nat
    decreases v
  {
    match v
    case Array(_, items) => NestingInside(items)
    case Map(_, items) => NestingInside(items)
    case _ => 0
  }

  function NestingInside(vs: seq<Value>): nat
    decreases vs
  {
    if vs == [] then
      0
    else
      var head, tail := 1 + Nesting(vs[0]), NestingInside(vs[1..]);
      if head < tail then tail else head
  }

  // ---- sequences of values ----

  lemma Single(v: Value)
    requires WellFormed(v)
    ensures AllWellFormed([v]) && EncodeAll([v]) == Encode(v) && NestingInside([v]) == 1 + Nesting(v)
  {
    hide WellFormed;
    hide Encode;
    hide Nesting;
    var vs := [v];
    assert vs[0] == v && vs[1..] == [];
    assert EncodeAll(vs) == Encode(v) + EncodeAll([]);
  }

  lemma Cons(v: Value, rest: seq<Value>)
    requires WellFormed(v) && AllWellFormed(rest)
    ensures AllWellFormed([v] + rest) && EncodeAll([v] + rest) == Encode(v) + EncodeAll(rest)
    ensures NestingInside([v] + rest)
         == if 1 + Nesting(v) < NestingInside(rest) then NestingInside(rest) else 1 + Nesting(v)
  {
    hide WellFormed;
    hide Encode;
    hide Nesting;
    var vs := [v] + rest;
    assert vs[0] == v && vs[1..] == rest;
  }

  lemma Pair(a: Value, b: Value)
    requires WellFormed(a) && WellFormed(b)
    ensures AllWellFormed([a, b]) && EncodeAll([a, b]) == Encode(a) + Encode(b)
    ensures NestingInside([a, b]) == if Nesting(a) < Nesting(b) then 1 + Nesting(b) else 1 + Nesting(a)
  {
    hide *;
    Single(b);
    Cons(a, [b]);
    assert [a] + [b] == [a, b];
  }

  lemma {:induction false} AllWellFormedConcat(a: seq<Value>, b: seq<Value>)
    requires AllWellFormed(a) && AllWellFormed(b)
    ensures AllWellFormed(a + b)
  {
    if a == [] {
      assert a + b == b;
    } else {
      AllWellFormedConcat(a[1..], b);
      assert (a + b)[0] == a[0] && (a + b)[1..] == a[1..] + b;
    }
  }

  lemma {:induction false} EncodeAllConcat(a: seq<Value>, b: seq<Value>)
    requires AllWellFormed(a) && AllWellFormed(b) && AllWellFormed(a + b)
    ensures EncodeAll(a + b) == EncodeAll(a) + EncodeAll(b)
  {
    if a == [] {
      assert a + b == b;
    } else {
      var s := a + b;
      assert s[0] == a[0] && s[1..] == a[1..] + b;
      EncodeAllConcat(a[1..], b);
      assert EncodeAll(s) == Encode(s[0]) + EncodeAll(s[1..]);
    }
  }

  lemma {:induction false} AllWellFormedAt(vs: seq<Value>, i: nat)
    requires AllWellFormed(vs) && i < |vs|
    ensures WellFormed(vs[i])
  {
    if i > 0 {
      AllWellFormedAt(vs[1..], i - 1);
    }
  }

  /** Nesting is a bound on every item, and one of them reaches it. */
  lemma {:induction false} NestingInsideBound(vs: seq<Value>, limit: nat)
    ensures NestingInside(vs) <= limit <==> forall i :: 0 <= i < |vs| ==> 1 + Nesting(vs[i]) <= limit
  {
    if vs != [] {
      NestingInsideBound(vs[1..], limit);
      assert forall i :: 1 <= i < |vs| ==> vs[i] == vs[1..][i - 1];
      if forall i :: 0 <= i < |vs| ==> 1 + Nesting(vs[i]) <= limit {
        forall i | 0 <= i < |vs[1..]|
          ensures 1 + Nesting(vs[1..][i]) <= limit
        {
          assert vs[1..][i] == vs[i + 1];
        }
      }
    }
  }
}
