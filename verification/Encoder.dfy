/** The payload encoder: one routine that runs over a byte writer and over a counting writer,
    what it writes, and the size admission built on it. */
module Encoder {
  import opened Bytes
  import opened FieldMap
  import opened FieldSet

  const FIELD_AUDIO: byte := 0x07
  const U32_MAX: nat := 0xFFFF_FFFF

  /** The eight bytes of a float64. */
  type timestamp = s: bytes | |s| == 8 witness [0, 0, 0, 0, 0, 0, 0, 0]

  // ---- the two writers ----

  /** Writes into the window `[lo, hi)` of a caller's buffer. */
  class SliceWriter {
    const output: array<byte>
    const lo: nat
    const hi: nat
    var position: nat

    ghost predicate Valid()
      reads this
    {
      lo + position <= hi <= output.Length
    }

    constructor (output: array<byte>, lo: nat, hi: nat)
      requires lo <= hi <= output.Length
      ensures Valid() && this.output == output && this.lo == lo && this.hi == hi && position == 0
    {
      this.output, this.lo, this.hi, position := output, lo, hi, 0;
    }

    /** A string that does not fit leaves everything as it was. The position and a slice length
        add up to less than a machine word, so the addition itself cannot fail. */
    method Put(b: bytes) returns (r: Result<()>)
      requires Valid()
      modifies this`position, output
      ensures Valid()
      ensures r == if old(position) + |b| <= hi - lo then Ok(()) else Err(OutputTooSmall)
      ensures output[..lo] == old(output[..lo]) && output[hi..] == old(output[hi..])
      ensures r.Ok? ==> position == old(position) + |b|
      ensures r.Ok? ==> output[lo..lo + position] == old(output[lo..lo + position]) + b
      ensures r.Err? ==> position == old(position) && output[..] == old(output[..])
    {
      var end := position + |b|;
      if end > hi - lo {
        return Err(OutputTooSmall);
      }
      var base := lo + position;
      forall i | 0 <= i < |b| {
        output[base + i] := b[i];
      }
      position := end;
      assert output[lo..lo + end] == output[lo..base] + output[base..lo + end];
      return Ok(());
    }
  }

  /** Counts what would be written, in a word of the machine. */
  class SizeWriter {
    const usizeMax: nat
    var total: nat

    ghost predicate Valid()
      reads this
    {
      total <= usizeMax
    }

    constructor (usizeMax: nat, total: nat)
      requires total <= usizeMax
      ensures Valid() && this.usizeMax == usizeMax && this.total == total
    {
      this.usizeMax, this.total := usizeMax, total;
    }
  }

  /** A body handed to the encoder: its bytes, or its length alone when only counting. */
  datatype Field = Body(b: bytes) | Length(n: nat) {
    function Size(): nat {
      match this
      case Body(b) => |b|
      case Length(n) => n
    }

    function Content(): bytes {
      match this
      case Body(b) => b
      case Length(_) => []
    }
  }

  /** What can be observed of a writer. */
  datatype Snapshot = Snapshot(measure: nat, written: bytes, before: bytes, after: bytes)

  function Fault(r: Result<()>): Option<LxmfError> {
    if r.Ok? then None else Some(r.error)
  }

  datatype Writer = ToSlice(slice: SliceWriter) | ToSize(size: SizeWriter) {
    ghost function Footprint(): set<object> {
      match this
      case ToSlice(w) => {w, w.output}
      case ToSize(w) => {w}
    }

    ghost predicate Valid()
      reads Footprint()
    {
      match this
      case ToSlice(w) => w.Valid()
      case ToSize(w) => w.Valid()
    }

    function Capacity(): nat {
      match this
      case ToSlice(w) => if w.lo <= w.hi then w.hi - w.lo else 0
      case ToSize(w) => w.usizeMax
    }

    function FullError(): LxmfError {
      match this
      case ToSlice(_) => OutputTooSmall
      case ToSize(_) => TooLong
    }

    /** The bytes written, and those of the buffer outside the window. */
    ghost function Look(): Snapshot
      requires Valid()
      reads Footprint()
    {
      match this
      case ToSlice(w) =>
        Snapshot(w.position, w.output[w.lo..w.lo + w.position], w.output[..w.lo], w.output[w.hi..])
      case ToSize(w) => Snapshot(w.total, [], [], [])
    }

    function Kept(content: bytes): bytes {
      if ToSlice? then content else []
    }

    predicate Takes(f: Field) {
      f.Body? <==> ToSlice?
    }

    /** From `s` to `t`, `size` more was written if it was encodable and there was room, and
        otherwise the writer said so; the buffer outside the window is as it was. */
    ghost predicate Step(
      s: Snapshot, t: Snapshot, fault: Option<LxmfError>, size: nat, content: bytes, encodable: bool
    ) {
      && t.before == s.before && t.after == s.after
      && (fault.None? <==> encodable && s.measure + size <= Capacity())
      && (fault.None? ==> t.measure == s.measure + size && t.written == s.written + Kept(content))
      && (fault.Some? ==>
            fault.value == FullError() || fault.value == TooLong || fault.value == TooManyFields)
    }

    method Write(b: bytes) returns (r: Result<()>)
      requires Valid()
      modifies Footprint()
      ensures Valid() && Step(old(Look()), Look(), Fault(r), |b|, b, true)
      ensures r != Err(TooManyFields)
    {
      match this {
        case ToSlice(w) => r := w.Put(b);
        case ToSize(w) =>
          if w.total + |b| > w.usizeMax {
            return Err(TooLong);
          }
          w.total := w.total + |b|;
          return Ok(());
      }
    }

    method WriteField(f: Field) returns (r: Result<()>)
      requires Valid() && Takes(f)
      modifies Footprint()
      ensures Valid() && Step(old(Look()), Look(), Fault(r), f.Size(), f.Content(), true)
      ensures r != Err(TooManyFields)
    {
      match f {
        case Body(b) => r := Write(b);
        case Length(n) =>
          if size.total + n > size.usizeMax {
            return Err(TooLong);
          }
          size.total := size.total + n;
          return Ok(());
      }
    }
  }

  lemma StepThen(
    w: Writer, s: Snapshot, t: Snapshot, u: Snapshot, fault: Option<LxmfError>,
    sizeA: nat, a: bytes, encA: bool, sizeB: nat, b: bytes, encB: bool
  )
    requires w.Step(s, t, None, sizeA, a, encA) && w.Step(t, u, fault, sizeB, b, encB)
    ensures w.Step(s, u, fault, sizeA + sizeB, a + b, encA && encB)
  {
    assert s.written + w.Kept(a) + w.Kept(b) == s.written + w.Kept(a + b);
  }

  lemma StepNone(w: Writer, s: Snapshot)
    requires w.Valid() && s == w.Look()
    ensures w.Step(s, s, None, 0, [], true)
  {
    assert s.written + w.Kept([]) == s.written;
  }

  lemma StepFailed(
    w: Writer, s: Snapshot, t: Snapshot, fault: Option<LxmfError>,
    sizeA: nat, a: bytes, encA: bool, sizeB: nat, b: bytes, encB: bool
  )
    requires w.Step(s, t, fault, sizeA, a, encA) && fault.Some?
    ensures w.Step(s, t, fault, sizeA + sizeB, a + b, encA && encB)
  {
  }

  // ---- what the encoder writes ----

  function BinPrefix(n: nat): bytes
    requires n <= U32_MAX
  {
    Pow256Values();
    if n <= 0xff then [0xc4, n]
    else if n <= 0xffff then [0xc5] + ToBigEndian(n, 2)
    else [0xc6] + ToBigEndian(n, 4)
  }

  function BinSize(n: nat): nat {
    n + if n <= 0xff then 2 else if n <= 0xffff then 3 else 5
  }

  function BinContent(f: Field): bytes {
    if f.Size() <= U32_MAX then BinPrefix(f.Size()) + f.Content() else []
  }

  /** The header of the fields map. */
  function MapPrefix(count: nat): bytes
    requires count <= MAX_FIELDS
  {
    if count < 16 then [0x80 + count] else [0xde, 0, count]
  }

  datatype PayloadFields =
    | NoFields
    | Audio(mode: byte, sound: Field)
    | Encoded(entries: seq<EncodedField>, present: Bitset)

  predicate FieldsEncodable(fields: PayloadFields) {
    match fields
    case NoFields => true
    case Audio(_, sound) => sound.Size() <= U32_MAX
    case Encoded(entries, _) => |entries| <= MAX_FIELDS
  }

  /** The entry count that `encoded_field_set` has checked. */
  predicate FewFields(fields: PayloadFields) {
    fields.Encoded? ==> |fields.entries| <= MAX_FIELDS
  }

  function FieldsSize(fields: PayloadFields): nat {
    match fields
    case NoFields => 1
    case Audio(mode, sound) => 3 + |KeyBytes(mode)| + BinSize(sound.Size())
    case Encoded(entries, present) =>
      (if |entries| <= MAX_FIELDS then |MapPrefix(|entries|)| else 0) + |EmitFrom(entries, present, 0)|
  }

  /** The key, and the value `[mode, sound]`: an array, never a bin-wrapped one. */
  function AudioEntry(mode: byte, sound: Field): bytes {
    [FIELD_AUDIO, 0x92] + (KeyBytes(mode) + BinContent(sound))
  }

  function FieldsContent(fields: PayloadFields): bytes {
    match fields
    case NoFields => [0x80]
    case Audio(mode, sound) => [0x81] + AudioEntry(mode, sound)
    case Encoded(entries, present) =>
      (if |entries| <= MAX_FIELDS then MapPrefix(|entries|) else []) + EmitFrom(entries, present, 0)
  }

  predicate PayloadEncodable(title: Field, content: Field, fields: PayloadFields) {
    title.Size() <= U32_MAX && content.Size() <= U32_MAX && FieldsEncodable(fields)
  }

  function PayloadSize(title: Field, content: Field, fields: PayloadFields): nat {
    10 + BinSize(title.Size()) + BinSize(content.Size()) + FieldsSize(fields)
  }

  function PayloadContent(ts: timestamp, title: Field, content: Field, fields: PayloadFields): bytes {
    [0x94, 0xcb] + ts + (BinContent(title) + (BinContent(content) + FieldsContent(fields)))
  }

  predicate FieldsTaken(w: Writer, fields: PayloadFields) {
    fields.Audio? ==> w.Takes(fields.sound)
  }

  // ---- the encoder ----

  method WriteBinPrefix(w: Writer, length: nat) returns (r: Result<()>)
    requires w.Valid() && length <= U32_MAX
    modifies w.Footprint()
    ensures w.Valid()
    ensures r != Err(TooManyFields)
    ensures w.Step(old(w.Look()), w.Look(), Fault(r), |BinPrefix(length)|, BinPrefix(length), true)
  {
    Pow256Values();
    if length <= 0xff {
      r := w.Write([0xc4, length]);
    } else if length <= 0xffff {
      r := WriteMarked(w, 0xc5, ToBigEndian(length, 2));
    } else {
      r := WriteMarked(w, 0xc6, ToBigEndian(length, 4));
    }
  }

  method WriteMarked(w: Writer, marker: byte, number: bytes) returns (r: Result<()>)
    requires w.Valid()
    modifies w.Footprint()
    ensures w.Valid()
    ensures r != Err(TooManyFields)
    ensures w.Step(old(w.Look()), w.Look(), Fault(r), 1 + |number|, [marker] + number, true)
  {
    r := w.Write([marker]);
    ghost var t := w.Look();
    if r.Err? {
      StepFailed(w, old(w.Look()), t, Fault(r), 1, [marker], true, |number|, number, true);
      return;
    }
    r := w.Write(number);
    StepThen(w, old(w.Look()), t, w.Look(), Fault(r), 1, [marker], true, |number|, number, true);
  }

  method WriteBin(w: Writer, f: Field) returns (r: Result<()>)
    requires w.Valid() && w.Takes(f)
    modifies w.Footprint()
    ensures w.Valid()
    ensures r != Err(TooManyFields)
    ensures w.Step(old(w.Look()), w.Look(), Fault(r), BinSize(f.Size()), BinContent(f), f.Size() <= U32_MAX)
  {
    if f.Size() > U32_MAX {
      return Err(TooLong);
    }
    ghost var prefix := BinPrefix(f.Size());
    assert |prefix| + f.Size() == BinSize(f.Size());
    r := WriteBinPrefix(w, f.Size());
    ghost var t := w.Look();
    if r.Err? {
      StepFailed(w, old(w.Look()), t, Fault(r), |prefix|, prefix, true, f.Size(), f.Content(), true);
      return;
    }
    r := w.WriteField(f);
    StepThen(w, old(w.Look()), t, w.Look(), Fault(r), |prefix|, prefix, true, f.Size(), f.Content(), true);
  }

  method WriteFieldsHeader(w: Writer, count: nat) returns (r: Result<()>)
    requires w.Valid()
    modifies w.Footprint()
    ensures w.Valid()
    ensures count <= MAX_FIELDS ==> r != Err(TooManyFields)
    ensures w.Step(old(w.Look()), w.Look(), Fault(r),
                   if count <= MAX_FIELDS then |MapPrefix(count)| else 0,
                   if count <= MAX_FIELDS then MapPrefix(count) else [], count <= MAX_FIELDS)
  {
    if count > MAX_FIELDS {
      return Err(TooManyFields);
    }
    if count < 16 {
      r := w.Write([0x80 + count]);
    } else {
      r := w.Write([0xde, 0, count]);
    }
  }

  method WriteKey(w: Writer, id: byte) returns (r: Result<()>)
    requires w.Valid()
    modifies w.Footprint()
    ensures w.Valid() && w.Step(old(w.Look()), w.Look(), Fault(r), |KeyBytes(id)|, KeyBytes(id), true)
    ensures r != Err(TooManyFields)
  {
    if id <= 0x7f {
      r := w.Write([id]);
    } else {
      r := w.Write([0xcc, id]);
    }
  }

  method WriteAudio(w: Writer, mode: byte, sound: Field) returns (r: Result<()>)
    requires w.Valid() && w.Takes(sound)
    modifies w.Footprint()
    ensures w.Valid()
    ensures r != Err(TooManyFields)
    ensures w.Step(old(w.Look()), w.Look(), Fault(r), FieldsSize(Audio(mode, sound)),
                   FieldsContent(Audio(mode, sound)), FieldsEncodable(Audio(mode, sound)))
  {
    hide Writer.Step;
    hide AudioEntry;
    ghost var rest := AudioEntry(mode, sound);
    ghost var size, fits := 2 + |KeyBytes(mode)| + BinSize(sound.Size()), sound.Size() <= U32_MAX;
    r := WriteFieldsHeader(w, 1);
    ghost var t := w.Look();
    if r.Err? {
      StepFailed(w, old(w.Look()), t, Fault(r), 1, [0x81], true, size, rest, fits);
      return;
    }
    r := WriteAudioEntry(w, mode, sound);
    StepThen(w, old(w.Look()), t, w.Look(), Fault(r), 1, [0x81], true, size, rest, fits);
  }

  method WriteAudioEntry(w: Writer, mode: byte, sound: Field) returns (r: Result<()>)
    requires w.Valid() && w.Takes(sound)
    modifies w.Footprint()
    ensures w.Valid()
    ensures r != Err(TooManyFields)
    ensures w.Step(old(w.Look()), w.Look(), Fault(r), 2 + |KeyBytes(mode)| + BinSize(sound.Size()),
                   AudioEntry(mode, sound), sound.Size() <= U32_MAX)
  {
    hide Writer.Step;
    hide KeyBytes;
    hide BinContent;
    hide BinSize;
    ghost var a: bytes, b := [FIELD_AUDIO, 0x92], KeyBytes(mode) + BinContent(sound);
    ghost var size, fits := |KeyBytes(mode)| + BinSize(sound.Size()), sound.Size() <= U32_MAX;
    r := w.Write([FIELD_AUDIO, 0x92]);
    ghost var t := w.Look();
    if r.Err? {
      StepFailed(w, old(w.Look()), t, Fault(r), 2, a, true, size, b, fits);
      return;
    }
    r := WriteAudioValue(w, mode, sound);
    StepThen(w, old(w.Look()), t, w.Look(), Fault(r), 2, a, true, size, b, fits);
  }

  method WriteAudioValue(w: Writer, mode: byte, sound: Field) returns (r: Result<()>)
    requires w.Valid() && w.Takes(sound)
    modifies w.Footprint()
    ensures w.Valid()
    ensures r != Err(TooManyFields)
    ensures w.Step(old(w.Look()), w.Look(), Fault(r), |KeyBytes(mode)| + BinSize(sound.Size()),
                   KeyBytes(mode) + BinContent(sound), sound.Size() <= U32_MAX)
  {
    hide Writer.Step;
    hide KeyBytes;
    hide BinContent;
    hide BinSize;
    ghost var a, b := KeyBytes(mode), BinContent(sound);
    ghost var size, fits := BinSize(sound.Size()), sound.Size() <= U32_MAX;
    r := WriteKey(w, mode);
    ghost var t := w.Look();
    if r.Err? {
      StepFailed(w, old(w.Look()), t, Fault(r), |a|, a, true, size, b, fits);
      return;
    }
    r := WriteBin(w, sound);
    StepThen(w, old(w.Look()), t, w.Look(), Fault(r), |a|, a, true, size, b, fits);
  }

  /** The inner loop: the values given for one id. */
  method WriteValues(w: Writer, entries: seq<EncodedField>, id: byte) returns (r: Result<()>)
    requires w.Valid()
    modifies w.Footprint()
    ensures w.Valid()
    ensures r != Err(TooManyFields)
    ensures w.Step(old(w.Look()), w.Look(), Fault(r), |ValuesOf(entries, id)|, ValuesOf(entries, id), true)
  {
    hide Writer.Step;
    hide Writer.Kept;
    ghost var s := w.Look();
    ghost var done: bytes := [];
    StepNone(w, s);
    for i := 0 to |entries|
      invariant w.Valid() && w.Step(s, w.Look(), None, |done|, done, true)
      invariant ValuesOf(entries, id) == done + ValuesOf(entries[i..], id)
    {
      assert entries[i..][1..] == entries[i + 1..];
      if entries[i].id == id {
        var value := entries[i].value;
        ghost var t := w.Look();
        var wrote := w.Write(value);
        StepThen(w, s, t, w.Look(), Fault(wrote), |done|, done, true, |value|, value, true);
        ghost var rest := ValuesOf(entries[i + 1..], id);
        assert done + (value + rest) == done + value + rest;
        done := done + value;
        if wrote.Err? {
          StepFailed(w, s, w.Look(), Fault(wrote), |done|, done, true, |rest|, rest, true);
          return wrote;
        }
      } else {
        assert [] + ValuesOf(entries[i + 1..], id) == ValuesOf(entries[i + 1..], id);
      }
    }
    assert done + [] == done;
    return Ok(());
  }

  lemma EmitStep(entries: seq<EncodedField>, present: Bitset, id: nat, done: bytes)
    requires id < 256
    ensures done + EmitFrom(entries, present, id)
         == done + EmitAt(entries, present, id) + EmitFrom(entries, present, id + 1)
  {
    hide EmitAt;
  }

  lemma EmitNone(entries: seq<EncodedField>, present: Bitset, done: bytes)
    ensures done + EmitFrom(entries, present, 256) == done
  {
  }

  /** The loop over all ids. */
  method WriteEntries(w: Writer, entries: seq<EncodedField>, present: Bitset) returns (r: Result<()>)
    requires w.Valid()
    modifies w.Footprint()
    ensures w.Valid()
    ensures r != Err(TooManyFields)
    ensures w.Step(old(w.Look()), w.Look(), Fault(r), |EmitFrom(entries, present, 0)|, EmitFrom(entries, present, 0), true)
  {
    hide Has;
    hide Writer.Step;
    hide EmitFrom;
    hide KeyBytes;
    hide ValuesOf;
    ghost var all := EmitFrom(entries, present, 0);
    ghost var s := w.Look();
    ghost var done: bytes := [];
    StepNone(w, s);
    assert all == [] + all;
    for id := 0 to 256
      invariant w.Valid() && w.Step(s, w.Look(), None, |done|, done, true)
      invariant all == done + EmitFrom(entries, present, id)
    {
      EmitStep(entries, present, id, done);
      if !Has(present, id) {
        continue;
      }
      ghost var t, entry, rest := w.Look(), KeyBytes(id) + ValuesOf(entries, id), EmitFrom(entries, present, id + 1);
      var wrote := WriteEntry(w, entries, id);
      StepThen(w, s, t, w.Look(), Fault(wrote), |done|, done, true, |entry|, entry, true);
      done := done + entry;
      if wrote.Err? {
        StepFailed(w, s, w.Look(), Fault(wrote), |done|, done, true, |rest|, rest, true);
        return wrote;
      }
    }
    EmitNone(entries, present, done);
    return Ok(());
  }

  method WriteEntry(w: Writer, entries: seq<EncodedField>, id: byte) returns (r: Result<()>)
    requires w.Valid()
    modifies w.Footprint()
    ensures w.Valid()
    ensures r != Err(TooManyFields)
    ensures var entry := KeyBytes(id) + ValuesOf(entries, id);
            w.Step(old(w.Look()), w.Look(), Fault(r), |entry|, entry, true)
  {
    ghost var s := w.Look();
    ghost var key, values := KeyBytes(id), ValuesOf(entries, id);
    r := WriteKey(w, id);
    ghost var t := w.Look();
    if r.Err? {
      StepFailed(w, s, t, Fault(r), |key|, key, true, |values|, values, true);
      return;
    }
    r := WriteValues(w, entries, id);
    StepThen(w, s, t, w.Look(), Fault(r), |key|, key, true, |values|, values, true);
  }

  method WriteFields(w: Writer, fields: PayloadFields) returns (r: Result<()>)
    requires w.Valid() && FieldsTaken(w, fields)
    modifies w.Footprint()
    ensures w.Valid()
    ensures FewFields(fields) ==> r != Err(TooManyFields)
    ensures w.Step(old(w.Look()), w.Look(), Fault(r), FieldsSize(fields), FieldsContent(fields), FieldsEncodable(fields))
  {
    match fields {
      case NoFields => r := WriteFieldsHeader(w, 0);
      case Audio(mode, sound) => r := WriteAudio(w, mode, sound);
      case Encoded(entries, present) =>
        ghost var s := w.Look();
        ghost var fits := |entries| <= MAX_FIELDS;
        ghost var a, b := if fits then MapPrefix(|entries|) else [], EmitFrom(entries, present, 0);
        r := WriteFieldsHeader(w, |entries|);
        ghost var t := w.Look();
        if r.Err? {
          StepFailed(w, s, t, Fault(r), |a|, a, fits, |b|, b, true);
          return;
        }
        r := WriteEntries(w, entries, present);
        StepThen(w, s, t, w.Look(), Fault(r), |a|, a, fits, |b|, b, true);
    }
  }

  method WriteOpening(w: Writer, ts: timestamp) returns (r: Result<()>)
    requires w.Valid()
    modifies w.Footprint()
    ensures w.Valid() && w.Step(old(w.Look()), w.Look(), Fault(r), 10, [0x94, 0xcb] + ts, true)
    ensures r != Err(TooManyFields)
  {
    hide Writer.Step;
    ghost var a: bytes, b: bytes := [0x94, 0xcb], ts;
    r := w.Write([0x94, 0xcb]);
    ghost var t := w.Look();
    if r.Err? {
      StepFailed(w, old(w.Look()), t, Fault(r), 2, a, true, 8, b, true);
      return;
    }
    r := w.Write(ts);
    StepThen(w, old(w.Look()), t, w.Look(), Fault(r), 2, a, true, 8, b, true);
  }

  method WriteContentAndFields(w: Writer, content: Field, fields: PayloadFields) returns (r: Result<()>)
    requires w.Valid() && w.Takes(content) && FieldsTaken(w, fields)
    modifies w.Footprint()
    ensures w.Valid()
    ensures FewFields(fields) ==> r != Err(TooManyFields)
    ensures w.Step(old(w.Look()), w.Look(), Fault(r), BinSize(content.Size()) + FieldsSize(fields),
                   BinContent(content) + FieldsContent(fields), content.Size() <= U32_MAX && FieldsEncodable(fields))
  {
    hide Writer.Step;
    hide BinContent;
    hide FieldsContent;
    hide FieldsSize;
    ghost var a, b := BinContent(content), FieldsContent(fields);
    ghost var aN, bN := BinSize(content.Size()), FieldsSize(fields);
    ghost var aFits, bFits := content.Size() <= U32_MAX, FieldsEncodable(fields);
    r := WriteBin(w, content);
    ghost var t := w.Look();
    if r.Err? {
      StepFailed(w, old(w.Look()), t, Fault(r), aN, a, aFits, bN, b, bFits);
      return;
    }
    r := WriteFields(w, fields);
    StepThen(w, old(w.Look()), t, w.Look(), Fault(r), aN, a, aFits, bN, b, bFits);
  }

  method WriteBodies(w: Writer, title: Field, content: Field, fields: PayloadFields) returns (r: Result<()>)
    requires w.Valid() && w.Takes(title) && w.Takes(content) && FieldsTaken(w, fields)
    modifies w.Footprint()
    ensures w.Valid()
    ensures FewFields(fields) ==> r != Err(TooManyFields)
    ensures w.Step(old(w.Look()), w.Look(), Fault(r),
                   BinSize(title.Size()) + (BinSize(content.Size()) + FieldsSize(fields)),
                   BinContent(title) + (BinContent(content) + FieldsContent(fields)),
                   PayloadEncodable(title, content, fields))
  {
    hide Writer.Step;
    hide BinContent;
    hide FieldsContent;
    hide FieldsSize;
    ghost var a, b := BinContent(title), BinContent(content) + FieldsContent(fields);
    ghost var aN, bN := BinSize(title.Size()), BinSize(content.Size()) + FieldsSize(fields);
    ghost var aFits, bFits := title.Size() <= U32_MAX, content.Size() <= U32_MAX && FieldsEncodable(fields);
    r := WriteBin(w, title);
    ghost var t := w.Look();
    if r.Err? {
      StepFailed(w, old(w.Look()), t, Fault(r), aN, a, aFits, bN, b, bFits);
      return;
    }
    r := WriteContentAndFields(w, content, fields);
    StepThen(w, old(w.Look()), t, w.Look(), Fault(r), aN, a, aFits, bN, b, bFits);
  }

  /** The one encoder, over either writer. */
  method WritePayload(w: Writer, ts: timestamp, title: Field, content: Field, fields: PayloadFields)
    returns (r: Result<()>)
    requires w.Valid() && w.Takes(title) && w.Takes(content) && FieldsTaken(w, fields)
    modifies w.Footprint()
    ensures w.Valid()
    ensures FewFields(fields) ==> r != Err(TooManyFields)
    ensures w.Step(old(w.Look()), w.Look(), Fault(r), PayloadSize(title, content, fields),
                   PayloadContent(ts, title, content, fields), PayloadEncodable(title, content, fields))
  {
    hide Writer.Step;
    hide BinContent;
    hide BinSize;
    hide FieldsContent;
    hide FieldsSize;
    ghost var a: bytes, b := [0x94, 0xcb] + ts, BinContent(title) + (BinContent(content) + FieldsContent(fields));
    ghost var size := BinSize(title.Size()) + (BinSize(content.Size()) + FieldsSize(fields));
    ghost var fits := PayloadEncodable(title, content, fields);
    r := WriteOpening(w, ts);
    ghost var t := w.Look();
    if r.Err? {
      StepFailed(w, old(w.Look()), t, Fault(r), 10, a, true, size, b, fits);
      return;
    }
    r := WriteBodies(w, title, content, fields);
    StepThen(w, old(w.Look()), t, w.Look(), Fault(r), 10, a, true, size, b, fits);
  }

  // ---- counting and writing agree ----

  /** A payload without its bodies: what the counting run is given. */
  function Lengths(fields: PayloadFields): PayloadFields {
    match fields
    case Audio(mode, sound) => Audio(mode, Length(sound.Size()))
    case _ => fields
  }

  predicate AllBodies(title: Field, content: Field, fields: PayloadFields) {
    title.Body? && content.Body? && (fields.Audio? ==> fields.sound.Body?)
  }

  lemma BinLength(f: Field)
    requires f.Body? && f.Size() <= U32_MAX
    ensures |BinContent(f)| == BinSize(f.Size())
  {
    hide ToBigEndian;
    hide Pow256;
  }

  lemma FieldsLength(fields: PayloadFields)
    requires (fields.Audio? ==> fields.sound.Body?) && FieldsEncodable(fields)
    ensures |FieldsContent(fields)| == FieldsSize(fields) == FieldsSize(Lengths(fields))
    ensures FieldsEncodable(Lengths(fields))
  {
    hide EmitFrom;
    if fields.Audio? {
      BinLength(fields.sound);
    }
    hide BinContent;
    hide BinSize;
  }

  /** The count taken from the lengths alone is the length of what is written. */
  lemma SizeIsLength(ts: timestamp, title: Field, content: Field, fields: PayloadFields)
    requires AllBodies(title, content, fields) && PayloadEncodable(title, content, fields)
    ensures |PayloadContent(ts, title, content, fields)|
         == PayloadSize(Length(title.Size()), Length(content.Size()), Lengths(fields))
    ensures PayloadEncodable(Length(title.Size()), Length(content.Size()), Lengths(fields))
  {
    BinLength(title);
    BinLength(content);
    FieldsLength(fields);
    hide BinContent;
    hide BinSize;
    hide FieldsContent;
    hide FieldsSize;
    hide FieldsEncodable;
    hide Lengths;
  }

  /** `dest(16) || source(16) || signature(64)` before the payload of a packed message. */
  const LXMF_PACKED_PREFIX: nat := 96

  /** `packed_len` and its variants, after admission: the counting run. */
  method PackedLen(usizeMax: nat, titleLen: nat, contentLen: nat, fields: PayloadFields) returns (r: Result<nat>)
    requires LXMF_PACKED_PREFIX <= usizeMax
    requires fields.Audio? ==> fields.sound.Length?
    ensures r.Ok?
       <==> && PayloadEncodable(Length(titleLen), Length(contentLen), fields)
            && LXMF_PACKED_PREFIX + PayloadSize(Length(titleLen), Length(contentLen), fields) <= usizeMax
    ensures r.Ok? ==> r.value == LXMF_PACKED_PREFIX + PayloadSize(Length(titleLen), Length(contentLen), fields)
    ensures r.Err? && FewFields(fields) ==> r.error == TooLong
  {
    hide PayloadContent;
    hide PayloadSize;
    var counter := new SizeWriter(usizeMax, LXMF_PACKED_PREFIX);
    var zero: timestamp := [0, 0, 0, 0, 0, 0, 0, 0];
    var w := ToSize(counter);
    assert w.Valid();
    var wrote := WritePayload(w, zero, Length(titleLen), Length(contentLen), fields);
    if wrote.Err? {
      return Err(wrote.error);
    }
    return Ok(counter.total);
  }

  /** `pack_payload`: the writing run, into a window of a caller's buffer. */
  method PackPayload(
    ts: timestamp, title: bytes, content: bytes, fields: PayloadFields, out: array<byte>, lo: nat, hi: nat
  )
    returns (r: Result<nat>)
    requires lo <= hi <= out.Length && AllBodies(Body(title), Body(content), fields)
    modifies out
    ensures out[..lo] == old(out[..lo]) && out[hi..] == old(out[hi..])
    ensures r.Ok?
       <==> && PayloadEncodable(Body(title), Body(content), fields)
            && |PayloadContent(ts, Body(title), Body(content), fields)| <= hi - lo
    ensures r.Ok? ==> At(out[..], lo, PayloadContent(ts, Body(title), Body(content), fields))
    ensures r.Ok? ==> r.value == |PayloadContent(ts, Body(title), Body(content), fields)|
    ensures r.Err? && FewFields(fields) ==> r.error == OutputTooSmall || r.error == TooLong
  {
    hide PayloadContent;
    hide PayloadSize;
    var writer := new SliceWriter(out, lo, hi);
    var w := ToSlice(writer);
    ghost var s := w.Look();
    var wrote := WritePayload(w, ts, Body(title), Body(content), fields);
    ghost var t := w.Look();
    ghost var text := PayloadContent(ts, Body(title), Body(content), fields);
    if PayloadEncodable(Body(title), Body(content), fields) {
      SizeIsLength(ts, Body(title), Body(content), fields);
      LengthsDoNotMatter(Body(title), Body(content), fields);
    }
    if wrote.Err? {
      return Err(wrote.error);
    }
    assert t.written == [] + text;
    return Ok(writer.position);
  }

  lemma LengthsDoNotMatter(title: Field, content: Field, fields: PayloadFields)
    ensures PayloadSize(title, content, fields)
         == PayloadSize(Length(title.Size()), Length(content.Size()), Lengths(fields))
  {
  }
}
