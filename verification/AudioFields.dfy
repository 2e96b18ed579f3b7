/** The native audio field: what the builder writes is an ordinary field, and the reader accepts
    exactly the arrays of a small integer and a bin. */
module AudioFields {
  import opened Bytes
  import opened MessagePack
  import opened Walker
  import opened Readers
  import opened IntDecoders
  import opened FieldMap
  import opened FieldSet
  import opened Encoder
  import opened Codec
  import opened FieldMessages
  import opened RoundTrip

  // ---- reading ----

  /** The length of a header that announces two items. */
  function PairHeader(value: bytes): Option<nat> {
    if 1 <= |value| && value[0] == 0x92 then Some(1)
    else if 3 <= |value| && value[0] == 0xdc && value[1] == 0 && value[2] == 2 then Some(3)
    else if 5 <= |value| && value[0] == 0xdd && value[1] == 0 && value[2] == 0 && value[3] == 0 && value[4] == 2 then
      Some(5)
    else None
  }

  /** `[mode, sound]`, with nothing behind it. */
  function ReadAudio(value: bytes): Result<(int, bytes)> {
    match PairHeader(value)
    case None => Err(MalformedPayload)
    case Some(header) =>
      match ReadAudioInteger(value[header..])
      case None => Err(MalformedPayload)
      case Some((mode, width)) =>
        var start := header + width;
        if start < |value| && 0xc4 <= value[start] <= 0xc6 then
          var (sound, end) :- ReadBin(value, start);
          if end == |value| then Ok((mode, sound)) else Err(MalformedPayload)
        else Err(MalformedPayload)
  }

  /** `audio_field`: duplicate outer keys are refused before the field is looked for. */
  function AudioField(fields: bytes): Result<Option<(int, bytes)>> {
    var _ :- StrictFieldsVerdict(fields);
    match FieldValueId(fields, FIELD_AUDIO)
    case None => Ok(None)
    case Some(value) =>
      var audio :- ReadAudio(value);
      Ok(Some(audio))
  }

  /** The tree of an audio value. */
  ghost predicate IsAudio(value: bytes, form: Form, key: Value, sound: Value) {
    && WellFormed(Array(form, [key, sound])) && Encode(Array(form, [key, sound])) == value
    && WellFormed(key) && WellFormed(sound) && IntOf(key).Some? && 0 <= IntOf(key).value <= 0xff && sound.Bin?
  }

  lemma PairEncodes(form: Form, a: Value, b: Value)
    requires WellFormed(Array(form, [a, b])) && WellFormed(a) && WellFormed(b)
    ensures Encode(Array(form, [a, b])) == Header(Array(form, [a, b])) + (Encode(a) + Encode(b))
  {
    hide *;
    PairPayload(form, [a, b]);
    Pair(a, b);
  }

  lemma PairPayload(form: Form, items: seq<Value>)
    requires WellFormed(Array(form, items))
    ensures AllWellFormed(items) && Encode(Array(form, items)) == Header(Array(form, items)) + EncodeAll(items)
  {
    hide Header;
    hide AllWellFormed;
    hide EncodeAll;
  }

  lemma NumberTwo()
    ensures Pow256(2) > 2 && ToBigEndian(2, 2) == [0, 2]
    ensures Pow256(4) > 2 && ToBigEndian(2, 4) == [0, 0, 0, 2]
  {
    TwoByteNumber(2);
    Pow256Values();
    assert Pow256(3) > 2;
    assert ToBigEndian(0, 1) == [0] && ToBigEndian(0, 2) == [0, 0] && ToBigEndian(0, 3) == [0, 0, 0];
    assert ToBigEndian(2, 4) == ToBigEndian(0, 3) + [2];
  }

  lemma PairHeaderOf(form: Form, items: seq<Value>, rest: bytes)
    requires NodeOk(Array(form, items)) && |items| == 2
    ensures PairHeader(Header(Array(form, items)) + rest) == Some(|Header(Array(form, items))|)
  {
    NumberTwo();
    hide ToBigEndian;
    hide Pow256;
  }

  /** What the reader has read when it accepts. */
  ghost predicate AudioRead(value: bytes, header: nat, mode: int, start: nat, sound: bytes) {
    && PairHeader(value) == Some(header) && header <= start < |value|
    && ReadFieldId(value[header..], 0) == Some((mode, start - header)) && 0 <= mode <= 0xff
    && 0xc4 <= value[start] <= 0xc6
    && ReadBin(value, start).Ok? && ReadBin(value, start).value == (sound, |value|)
  }

  lemma ReadAudioFrom(value: bytes, header: nat, mode: int, start: nat, sound: bytes)
    requires AudioRead(value, header, mode, start, sound)
    ensures ReadAudio(value).Ok? && ReadAudio(value).value == (mode, sound)
  {
    AudioIntegerAgrees(value[header..]);
    hide ReadFieldId;
    hide ReadBin;
    hide PairHeader;
    hide ReadAudioInteger;
  }

  lemma ReadAudioParts(value: bytes) returns (header: nat, mode: int, start: nat, sound: bytes)
    requires ReadAudio(value).Ok?
    ensures AudioRead(value, header, mode, start, sound) && ReadAudio(value).value == (mode, sound)
  {
    header := PairHeader(value).value;
    AudioIntegerAgrees(value[header..]);
    hide ReadFieldId;
    hide ReadBin;
    hide PairHeader;
    hide ReadAudioInteger;
    mode := ReadAudio(value).value.0;
    sound := ReadAudio(value).value.1;
    start := header + ReadFieldId(value[header..], 0).value.1;
  }

  /** The reader accepts every audio tree, and reads its mode and sound. */
  lemma AudioOfTree(value: bytes, form: Form, key: Value, sound: Value)
    requires IsAudio(value, form, key, sound)
    ensures ReadAudio(value).Ok? && ReadAudio(value).value == (IntOf(key).value, sound.body)
  {
    PairEncodes(form, key, sound);
    var h := Header(Array(form, [key, sound]));
    PairHeaderOf(form, [key, sound], Encode(key) + Encode(sound));
    hide PairHeader;
    hide Encode;
    hide Header;
    hide WellFormed;
    hide ReadAudio;
    hide IntOf;
    hide ReadBin;
    AudioLayout(value, h, key, sound);
    AudioOfParts(value, |h|, key, sound);
  }

  lemma AudioOfParts(value: bytes, header: nat, key: Value, sound: Value)
    requires PairHeader(value) == Some(header) && header <= |value|
    requires WellFormed(key) && NodeOk(key) && WellFormed(sound)
    requires sound.Bin? && IntOf(key).Some? && 0 <= IntOf(key).value <= 0xff
    requires At(value[header..], 0, Encode(key)) && At(value, header + |Encode(key)|, Encode(sound))
    requires |value| == header + |Encode(key)| + |Encode(sound)|
    requires 0xc4 <= value[header + |Encode(key)|] <= 0xc6
    ensures ReadAudio(value).Ok? && ReadAudio(value).value == (IntOf(key).value, sound.body)
  {
    hide PairHeader;
    hide Encode;
    hide WellFormed;
    hide ReadAudio;
    hide ReadFieldId;
    hide ReadBin;
    hide IntOf;
    hide At;
    FieldIdOfInteger(value[header..], 0, key);
    ReadBinOfString(value, header + |Encode(key)|, sound);
    ReadAudioFrom(value, header, IntOf(key).value, header + |Encode(key)|, sound.body);
  }

  lemma AudioLayout(value: bytes, h: bytes, key: Value, sound: Value)
    requires WellFormed(key) && WellFormed(sound) && sound.Bin? && value == h + (Encode(key) + Encode(sound))
    ensures At(value[|h|..], 0, Encode(key)) && At(value, |h| + |Encode(key)|, Encode(sound))
    ensures |value| == |h| + |Encode(key)| + |Encode(sound)|
    ensures 0xc4 <= value[|h| + |Encode(key)|] <= 0xc6
  {
    hide *;
    BinMarker(sound);
    ThreeParts(value, h, Encode(key), Encode(sound));
  }

  lemma ThreeParts(value: bytes, a: bytes, b: bytes, c: bytes)
    requires value == a + (b + c) && c != []
    ensures At(value[|a|..], 0, b) && At(value, |a| + |b|, c) && value[|a| + |b|] == c[0]
    ensures |value| == |a| + |b| + |c|
  {
    assert value[|a|..] == b + c;
    assert value[|a| + |b|..] == c;
  }

  lemma BinMarker(v: Value)
    requires WellFormed(v) && v.Bin?
    ensures 0xc4 <= Encode(v)[0] <= 0xc6
  {
    hide ToBigEndian;
    hide Pow256;
  }

  /** ... and nothing else. */
  lemma TreeOfAudio(value: bytes) returns (form: Form, key: Value, sound: Value)
    requires ReadAudio(value).Ok?
    ensures IsAudio(value, form, key, sound) && ReadAudio(value).value == (IntOf(key).value, sound.body)
  {
    var header, mode, start, body := ReadAudioParts(value);
    var tail := value[header..];
    hide ReadBin;
    hide ReadFieldId;
    hide ReadAudio;
    hide PairHeader;
    hide IntOf;
    hide Encode;
    hide WellFormed;
    key := IntegerAt(tail, 0);
    sound := StringAtReadBin(value, start);
    form := if header == 1 then Fix else if header == 3 then Len16 else Len32;
    BinByMarker(value, start, sound);
    PairHeaderBytes(value, form, key, sound);
    PairEncodes(form, key, sound);
    hide Header;
    PairSplit(value, header, start, Encode(key), Encode(sound));
  }

  lemma PairSplit(value: bytes, header: nat, start: nat, key: bytes, sound: bytes)
    requires header <= start <= |value|
    requires key == value[header..][0..start - header] && sound == value[start..|value|]
    ensures value == value[..header] + (key + sound)
  {
    assert key == value[header..start];
  }

  lemma BinByMarker(value: bytes, pos: nat, v: Value)
    requires IsString(v) && WellFormed(v) && At(value, pos, Encode(v)) && 0xc4 <= value[pos] <= 0xc6
    ensures v.Bin?
  {
    AtConcat(value, pos, Header(v), Payload(v));
    assert value[pos] == value[pos..pos + |Header(v)|][0];
    hide ToBigEndian;
    hide Pow256;
  }

  lemma PairHeaderBytes(value: bytes, form: Form, a: Value, b: Value)
    requires PairHeader(value).Some? && WellFormed(a) && WellFormed(b)
    requires form == (match PairHeader(value).value case 1 => Fix case 3 => Len16 case _ => Len32)
    ensures WellFormed(Array(form, [a, b])) && Header(Array(form, [a, b])) == value[..PairHeader(value).value]
  {
    NumberTwo();
    Pair(a, b);
    hide ToBigEndian;
    hide Pow256;
    hide WellFormed;
    hide AllWellFormed;
    PairIsWellFormed(form, [a, b]);
  }

  lemma PairIsWellFormed(form: Form, items: seq<Value>)
    requires |items| == 2 && AllWellFormed(items) && form != Len8
    ensures WellFormed(Array(form, items))
  {
    NumberTwo();
    hide Pow256;
    hide AllWellFormed;
  }

  // ---- writing ----

  /** What the audio builder writes as the value of its field. */
  function AudioBytes(mode: byte, sound: bytes): bytes {
    [0x92] + (KeyBytes(mode) + BinBytes(sound))
  }

  function AudioEntryList(mode: byte, sound: bytes): seq<EncodedField> {
    [EncodedField(FIELD_AUDIO, AudioBytes(mode, sound))]
  }

  lemma AudioBytesIsAudio(mode: byte, sound: bytes)
    requires |sound| <= U32_MAX
    ensures IsAudio(AudioBytes(mode, sound), Fix, KeyValue(mode), BinValue(sound))
    ensures IntOf(KeyValue(mode)) == Some(mode) && BinValue(sound).body == sound
    ensures Nesting(Array(Fix, [KeyValue(mode), BinValue(sound)])) == 1
  {
    KeyValueIsKey(mode);
    BinValueIsBin(sound);
    var a, b := KeyValue(mode), BinValue(sound);
    Pair(a, b);
    hide Encode;
    hide WellFormed;
    PairIsWellFormed(Fix, [a, b]);
    PairEncodes(Fix, a, b);
  }

  lemma OneEntry(f: EncodedField)
    requires Complete(f.value)
    ensures Admit([f]).Ok? && Canonical([f]) == [f]
  {
    hide Complete;
    AdmitMeaning([f]);
    assert Admissible([f]);
    CanonicalIsPermutation([f]);
    AscendingIsDistinct([f]);
    var sorted := Canonical([f]);
    assert |sorted| == 1 && sorted[0] in multiset(sorted) && sorted[0] in multiset([f]);
  }

  /** The audio builder writes the message that the field builder would write for one audio field,
      and the text builder the one for no fields. */
  lemma AudioIsField(ts: timestamp, title: bytes, content: bytes, mode: byte, sound: bytes)
    requires |sound| <= U32_MAX
    ensures Admit(AudioEntryList(mode, sound)).Ok?
    ensures PayloadText(ts, title, content, Audio(mode, Body(sound)))
         == MessageText(ts, title, content, AudioEntryList(mode, sound))
  {
    AudioBytesIsAudio(mode, sound);
    var v := Array(Fix, [KeyValue(mode), BinValue(sound)]);
    var value := AudioBytes(mode, sound);
    assert value[0..|value|] == value;
    hide Encode;
    hide Nesting;
    hide WellFormed;
    hide SkipValue;
    SkipEncoded(value, 0, 1, v);
    assert Complete(value);
    OneEntry(EncodedField(FIELD_AUDIO, value));
    AudioText(mode, sound);
    hide BinContent;
    hide FieldsText;
    hide FieldsContent;
    hide Admit;
  }

  lemma AudioText(mode: byte, sound: bytes)
    requires Canonical(AudioEntryList(mode, sound)) == AudioEntryList(mode, sound)
    ensures FieldsContent(Audio(mode, Body(sound))) == FieldsText(AudioEntryList(mode, sound))
  {
    hide Canonical;
    hide BinContent;
    var list, value := AudioEntryList(mode, sound), AudioBytes(mode, sound);
    assert list[1..] == [] && EntryBytes(list) == KeyBytes(FIELD_AUDIO) + value + EntryBytes([]);
    assert EntryBytes(list) == [FIELD_AUDIO] + value;
    assert AudioEntry(mode, Body(sound)) == [FIELD_AUDIO] + value;
  }

  lemma TextIsNoField(ts: timestamp, title: bytes, content: bytes)
    ensures Admit([]).Ok?
    ensures PayloadText(ts, title, content, NoFields) == MessageText(ts, title, content, [])
  {
    CanonicalIsPermutation([]);
    assert Canonical([]) == [];
    hide Canonical;
    assert FieldsText([]) == [0x80];
    assert FieldsContent(NoFields) == FieldsText([]);
    hide BinContent;
  }

  /** Audio round trip: the reader gives back the mode and the sound. */
  lemma AudioRoundTrip(mode: byte, sound: bytes)
    requires |sound| <= U32_MAX && Admit(AudioEntryList(mode, sound)).Ok?
    ensures AudioField(FieldsText(AudioEntryList(mode, sound))).Ok?
    ensures AudioField(FieldsText(AudioEntryList(mode, sound))).value == Some((mode, sound))
  {
    hide FieldValueId;
    hide FieldsText;
    hide Admit;
    hide ReadAudio;
    hide AudioBytes;
    hide KeyValue;
    hide BinValue;
    var list := AudioEntryList(mode, sound);
    LookUpBuilt(list);
    assert list[0].id == FIELD_AUDIO;
    AudioBytesIsAudio(mode, sound);
    AudioOfTree(AudioBytes(mode, sound), Fix, KeyValue(mode), BinValue(sound));
    LookUpNeedsVerdict(FieldsText(list), FIELD_AUDIO);
  }

  lemma LookUpNeedsVerdict(fields: bytes, id: int)
    requires FieldValueId(fields, id).Some?
    ensures StrictFieldsVerdict(fields).Ok?
  {
    hide StrictFieldsVerdict;
    hide FindEntry;
  }

  /** An audio tree with this mode and this sound. */
  ghost predicate IsAudioOf(value: bytes, form: Form, key: Value, bin: Value, mode: int, sound: bytes) {
    IsAudio(value, form, key, bin) && IntOf(key).value == mode && bin.body == sound
  }

  /** A value reads as audio just when it is the encoding of an audio tree. */
  lemma ReadAudioIsGrammar(value: bytes, mode: int, sound: bytes)
    ensures (ReadAudio(value).Ok? && ReadAudio(value).value == (mode, sound))
       <==> exists form, key, bin :: IsAudioOf(value, form, key, bin, mode, sound)
  {
    hide ReadAudio;
    hide Encode;
    hide WellFormed;
    if ReadAudio(value).Ok? && ReadAudio(value).value == (mode, sound) {
      var form, key, bin := TreeOfAudio(value);
      assert IsAudioOf(value, form, key, bin, mode, sound);
    }
    if form, key, bin :| IsAudioOf(value, form, key, bin, mode, sound) {
      AudioOfTree(value, form, key, bin);
    }
  }

  lemma ReadAudioErrors(value: bytes)
    ensures ReadAudio(value).Err? ==> ReadAudio(value).error == MalformedPayload
  {
    hide PairHeader;
    hide ReadAudioInteger;
    hide ReadBin;
  }

  /** `audio_field` answers a mode and a sound just when the fields are a keyed map whose audio
      entry is an array of an integer of one byte, in any encoding, and a bin; it answers nothing
      just when they are a keyed map without an audio entry. */
  lemma AudioFieldMeaning(fields: bytes, mode: int, sound: bytes)
    ensures (AudioField(fields).Ok? && AudioField(fields).value == Some((mode, sound)))
       <==> exists value, form, key, bin ::
              FieldValueId(fields, 0x07) == Some(value) && IsAudioOf(value, form, key, bin, mode, sound)
    ensures (AudioField(fields).Ok? && AudioField(fields).value == None)
       <==> StrictFieldsVerdict(fields).Ok? && FieldValueId(fields, 0x07) == None
    ensures var r, verdict := AudioField(fields), StrictFieldsVerdict(fields);
            r.Err? ==> r.error == if verdict.Err? then verdict.error else MalformedPayload
  {
    if FieldValueId(fields, FIELD_AUDIO).Some? {
      ReadAudioErrors(FieldValueId(fields, FIELD_AUDIO).value);
    }
    hide FieldValueId;
    hide StrictFieldsVerdict;
    hide ReadAudio;
    hide IsAudioOf;
    if FieldValueId(fields, FIELD_AUDIO).Some? {
      ReadAudioIsGrammar(FieldValueId(fields, FIELD_AUDIO).value, mode, sound);
      LookUpNeedsVerdict(fields, FIELD_AUDIO);
    }
  }
}
