/** Arrays from the wire: the item iterator, and the two readers of message lists. */
module ArrayLists {
  import opened Bytes
  import opened MessagePack
  import opened Walker
  import opened Unambiguous
  import opened Readers

  /** `data` is exactly the encoding of an array of `items`, within the nesting limit. */
  ghost predicate IsArray(data: bytes, form: Form, items: seq<Value>) {
    && WellFormed(Array(form, items))
    && Encode(Array(form, items)) == data
    && NestingInside(items) <= MAX_DEPTH
  }

  /** Where the items of one complete array start, and how many there are. After the skip the
      length tests cannot fail: `ArrayHeadReads`. */
  function ArrayHeader(data: bytes): (r: Result<(nat, nat)>)
    ensures r.Err? ==> r.error == MalformedPayload
  {
    var end :- SkipValue(data, 0, 0);
    if end != |data| then Err(MalformedPayload)
    else if 0x90 <= data[0] <= 0x9f then Ok((1, data[0] % 16))
    else if data[0] == 0xdc && |data| >= 3 then Ok((3, BigEndian(data[1..3])))
    else if data[0] == 0xdd && |data| >= 5 then Ok((5, BigEndian(data[1..5])))
    else Err(MalformedPayload)
  }

  lemma ArrayHeadShape(data: bytes, v: Value)
    requires WellFormed(v) && At(data, 0, Header(v))
    ensures data != [] && ((0x90 <= data[0] <= 0x9f || data[0] == 0xdc || data[0] == 0xdd) <==> v.Array?)
  {
    assert data[0] == data[0..|Header(v)|][0];
    hide ToBigEndian;
    hide Pow256;
  }

  /** A complete value has bytes for the whole header its marker announces. */
  lemma ArrayHeadReads(data: bytes)
    requires SkipValue(data, 0, 0) == Ok(|data|)
    requires 0x90 <= data[0] <= 0x9f || data[0] == 0xdc || data[0] == 0xdd
    ensures ArrayHeader(data).Ok?
    ensures ReadHead(data, 0) == Ok(Items(ArrayHeader(data).value.0, ArrayHeader(data).value.1))
  {
    hide BigEndian;
    hide SkipN;
  }

  lemma ArrayHeaderOfTree(data: bytes, form: Form, items: seq<Value>)
    requires IsArray(data, form, items)
    ensures var h := Header(Array(form, items));
            && ArrayHeader(data) == Ok((|h|, |items|))
            && AllWellFormed(items) && data == h + EncodeAll(items)
  {
    hide ArrayHeader;
    hide ReadHead;
    hide Header;
    var v := Array(form, items);
    assert data[0..|data|] == data;
    SkipEncoded(data, 0, 0, v);
    AtConcat(data, 0, Header(v), EncodeAll(items));
    ArrayHeadShape(data, v);
    ArrayHeadReads(data);
    HeadOfArray(data, 0, v);
  }

  /** An array header is read just when the bytes are exactly one array of trees. */
  lemma ArrayDecoded(data: bytes) returns (form: Form, items: seq<Value>)
    requires ArrayHeader(data).Ok?
    ensures IsArray(data, form, items)
  {
    var v := SkipSound(data, 0, 0);
    assert data[0..|data|] == data;
    hide ArrayHeader;
    hide Header;
    AtConcat(data, 0, Header(v), Payload(v));
    ArrayHeadShape(data, v);
    assert v.Array? by {
      ArrayMarker(data);
    }
    form, items := v.form, v.items;
    assert v == Array(form, items);
  }

  lemma ArrayMarker(data: bytes)
    requires ArrayHeader(data).Ok?
    ensures 0x90 <= data[0] <= 0x9f || data[0] == 0xdc || data[0] == 0xdd
  {
    hide BigEndian;
    hide SkipValue;
  }

  lemma OneArray(data: bytes, form: Form, items: seq<Value>, form2: Form, items2: seq<Value>)
    requires IsArray(data, form, items) && IsArray(data, form2, items2)
    ensures form == form2 && items == items2
  {
    hide WellFormed;
    hide Encode;
    assert data[0..|data|] == data;
    OneTree(data, 0, Array(form, items), Array(form2, items2));
  }

  /** The iterator over the items of a validated array. `rest` holds the trees still to come. */
  class ArrayItems {
    const data: bytes
    var pos: nat
    var remaining: nat
    ghost var rest: seq<Value>

    ghost predicate Valid()
      reads this
    {
      && pos <= |data|
      && |rest| == remaining
      && AllWellFormed(rest)
      && EncodeAll(rest) == data[pos..]
      && NestingInside(rest) <= MAX_DEPTH
    }

    constructor (data: bytes, ghost form: Form, ghost items: seq<Value>)
      requires IsArray(data, form, items)
      ensures Valid() && this.data == data && rest == items
      ensures ArrayHeader(data) == Ok((pos, remaining))
    {
      ArrayHeaderOfTree(data, form, items);
      this.data := data;
      pos := ArrayHeader(data).value.0;
      remaining := ArrayHeader(data).value.1;
      rest := items;
      hide Header;
    }

    /** Yields the items one by one, each a complete value, and stops only after the last. */
    method Next() returns (item: Option<bytes>)
      requires Valid()
      modifies this
      ensures Valid()
      ensures if old(rest) == []
              then item == None && rest == [] && pos == old(pos)
              else WellFormed(old(rest)[0]) && item == Some(Encode(old(rest)[0])) && rest == old(rest)[1..]
    {
      hide SkipValue;
      hide WellFormed;
      hide Encode;
      if remaining == 0 {
        return None;
      }
      AtConcat(data, pos, Encode(rest[0]), EncodeAll(rest[1..]));
      SkipEncoded(data, pos, 0, rest[0]);
      var end := SkipValue(data, pos, 0).value;
      item := Some(data[pos..end]);
      assert data[end..] == data[pos..][end - pos..];
      pos := end;
      remaining := remaining - 1;
      rest := rest[1..];
    }
  }

  /** `array_items`: an iterator over every item, or a refusal of anything but one array. */
  method OpenArray(data: bytes) returns (r: Result<ArrayItems>)
    ensures r.Err? ==> r.error == MalformedPayload
    ensures r.Ok? <==> exists form, items :: IsArray(data, form, items)
    ensures r.Ok? ==> fresh(r.value) && r.value.Valid() && r.value.data == data
    ensures r.Ok? ==> forall form, items :: IsArray(data, form, items) ==> r.value.rest == items
  {
    hide IsArray;
    hide ArrayHeader;
    var header := ArrayHeader(data);
    forall form, items | IsArray(data, form, items)
      ensures header.Ok?
    {
      ArrayHeaderOfTree(data, form, items);
    }
    if header.Err? {
      return Err(header.error);
    }
    ghost var form, items := ArrayDecoded(data);
    forall form2, items2 | IsArray(data, form2, items2)
      ensures items2 == items
    {
      OneArray(data, form, items, form2, items2);
    }
    var it := new ArrayItems(data, form, items);
    return Ok(it);
  }

  // ---- value_as_bytes on one item ----

  lemma AsBytesOfTree(v: Value)
    requires WellFormed(v)
    ensures ReadBin(Encode(v), 0).Ok? <==> IsString(v)
    ensures IsString(v) ==> ReadBin(Encode(v), 0).value.0 == v.body
  {
    var data := Encode(v);
    assert data[0..|data|] == data;
    hide ReadBin;
    hide Encode;
    hide WellFormed;
    hide ReadHead;
    if IsString(v) {
      ReadBinOfString(data, 0, v);
    } else if ReadBin(data, 0).Ok? {
      ReadBinHead(data, 0);
      StringShape(data, 0, v);
    }
  }

  // ---- message lists ----

  predicate IsId(v: Value) {
    IsString(v) && |v.body| == 32
  }

  ghost predicate IsIdList(data: bytes, form: Form, items: seq<Value>) {
    IsArray(data, form, items) && forall i :: 0 <= i < |items| ==> IsId(items[i])
  }

  ghost function IdAt(items: seq<Value>, index: nat): Option<bytes>
    requires forall i :: 0 <= i < |items| ==> IsId(items[i])
  {
    if index < |items| then assert IsId(items[index]); Some(items[index].body) else None
  }

  /** `available_at`: the id at `index` and the number of ids, only if every item is an id. */
  method AvailableAt(data: bytes, index: nat) returns (r: Result<(Option<bytes>, nat)>)
    ensures r.Err? ==> r.error == MalformedPayload
    ensures r.Ok? <==> exists form, items :: IsIdList(data, form, items)
    ensures forall form, items: seq<Value> ::
              IsIdList(data, form, items) ==> r == Ok((IdAt(items, index), |items|))
  {
    hide IsArray;
    hide WellFormed;
    hide Encode;
    hide ReadBin;
    var list := OpenArray(data);
    if list.Err? {
      return Err(list.error);
    }
    var it := list.value;
    ghost var form: Form, items: seq<Value> :| IsArray(data, form, items);
    var count := it.remaining;
    var first: Option<bytes> := None;
    for position := 0 to count
      invariant it.Valid() && count == |items| && it.rest == items[position..]
      invariant forall i :: 0 <= i < position ==> IsId(items[i])
      invariant first == if index < position then Some(items[index].body) else None
    {
      assert it.rest[0] == items[position];
      var item := it.Next();
      AsBytesOfTree(items[position]);
      var id := ReadBin(item.value, 0);
      if id.Err? || |id.value.0| != 32 {
        forall form2, items2 | IsArray(data, form2, items2)
          ensures !IsIdList(data, form2, items2)
        {
          assert items2 == items && !IsId(items2[position]);
        }
        return Err(MalformedPayload);
      }
      if position == index {
        first := Some(id.value.0);
      }
    }
    assert IsIdList(data, form, items);
    return Ok((first, count));
  }

  /** `fetched_message`: no item, or one string. */
  function FetchedMessage(data: bytes): Result<Option<bytes>> {
    var (pos, count) :- ArrayHeader(data);
    if count > 1 then
      Err(MalformedPayload)
    else if count == 0 then
      Ok(None)
    else
      match SkipValue(data, pos, 0)
      case Err(_) => Ok(None)
      case Ok(end) =>
        match ReadBin(data[pos..end], 0)
        case Err(_) => Err(MalformedPayload)
        case Ok((body, _)) => Ok(Some(body))
  }

  /** Exactly: an array of one string gives its body, an empty array gives nothing, and all
      else is refused; the iterator's early stop is never taken. */
  lemma FetchedMessageOfArray(data: bytes, form: Form, items: seq<Value>)
    requires IsArray(data, form, items)
    ensures FetchedMessage(data)
         == if items == [] then Ok(None)
            else if |items| == 1 && IsString(items[0]) then Ok(Some(items[0].body))
            else Err(MalformedPayload)
  {
    ArrayHeaderOfTree(data, form, items);
    hide IsArray;
    hide WellFormed;
    hide Encode;
    hide Nesting;
    hide Header;
    hide ReadBin;
    hide SkipValue;
    hide ArrayHeader;
    if |items| == 1 {
      OnlyItem(data, form, items);
      ReadsRest(data, ArrayHeader(data).value.0, items[0]);
    }
  }

  /** The one item of an array of one is all that follows the header. */
  lemma OnlyItem(data: bytes, form: Form, items: seq<Value>)
    requires IsArray(data, form, items) && |items| == 1
    ensures WellFormed(items[0]) && Nesting(items[0]) <= MAX_DEPTH
    ensures ArrayHeader(data).Ok? && ArrayHeader(data).value.0 <= |data|
    ensures data[ArrayHeader(data).value.0..] == Encode(items[0])
  {
    ArrayHeaderOfTree(data, form, items);
    hide WellFormed;
    hide Encode;
    hide Header;
    hide Nesting;
    hide ArrayHeader;
    AllWellFormedAt(items, 0);
    assert items == [items[0]];
    Single(items[0]);
  }

  /** A value that fills the rest of a buffer is skipped to the end, and read when a string. */
  lemma ReadsRest(data: bytes, pos: nat, v: Value)
    requires WellFormed(v) && Nesting(v) <= MAX_DEPTH && pos <= |data| && data[pos..] == Encode(v)
    ensures SkipValue(data, pos, 0) == Ok(|data|)
    ensures ReadBin(data[pos..|data|], 0).Ok? <==> IsString(v)
    ensures IsString(v) ==> ReadBin(data[pos..|data|], 0).value.0 == v.body
  {
    hide WellFormed;
    hide Encode;
    hide Nesting;
    hide ReadBin;
    hide SkipValue;
    hide IsString;
    assert data[pos..|data|] == data[pos..];
    SkipEncoded(data, pos, 0, v);
    AsBytesOfTree(v);
  }

  lemma FetchedMessageRefuses(data: bytes)
    requires forall form, items :: !IsArray(data, form, items)
    ensures FetchedMessage(data) == Err(MalformedPayload)
  {
    hide IsArray;
    hide SkipValue;
    if ArrayHeader(data).Ok? {
      var form, items := ArrayDecoded(data);
    }
  }
}
