/** The measurements config document: what it takes to validate one, and why a
    set that is written is the set that is read back. */
module Config {
  import opened Octets
  import opened HashChain
  import opened TeeTypes
  import opened Binding
  import opened Images
  import opened TupleKeys

  /** What the document's libraries decide: hashing, which bytes are a PEM public
      key, which are valid UTF-8, and what a JSON encoder writes for any others. */
  datatype Library = Library(h: Hashes, isPublicKey: Bytes -> bool, isUtf8: Bytes -> bool, coerce: Bytes -> Bytes)

  /** A raw JSON field: left out, null, a string, or any other value. */
  datatype Raw = Absent | Null | JsonText(text: Bytes) | OtherJson

  datatype WireImage = WireImage(
    name: Bytes,
    measurement: Option<Bytes>,
    mrtd: Option<Bytes>,
    rtmr: Option<seq<Option<Bytes>>>,
    approverKey: Raw,
    launchFile: Raw,
    launchFileDigest: Raw)

  datatype Wire = Wire(schema: Bytes, tee: Bytes, measurements: seq<WireImage>)

  datatype ReferenceValues = ReferenceValues(family: Family, images: seq<ImagePin>)

  datatype ConfigError = BadSchema | BadTee | NoMeasurements | BadEntry | DuplicateName | DuplicateTuple | BadField

  const SCHEMA_1: Bytes := [0x31]
  const SCHEMA_2: Bytes := [0x32]

  // -------------------------------------------------------------- one entry

  /** decodeRTMRs: null entries are unpinned, "" pins zero, RTMR[0] cannot be pinned. */
  function DecodeRtmrs(raw: seq<Option<Bytes>>): (r: Result<map<int, Bytes>, ConfigError>)
    ensures r.Ok? ==> forall i :: i in r.value ==> 0 < i < |raw| && |r.value[i]| == 48
  {
    if raw == [] then Ok(map[])
    else
      var idx := |raw| - 1;
      match DecodeRtmrs(raw[..idx])
      case Err(e) => Err(e)
      case Ok(m) =>
        match raw[idx]
        case None => Ok(m)
        case Some(v) =>
          if idx == 0 then Err(BadEntry)
          else if v == [] then Ok(m[idx := Zeros(48)])
          else match ParseDigest(v, 48) case Err(_) => Err(BadEntry) case Ok(d) => Ok(m[idx := d])
  }

  /** The pins below index k. */
  ghost function Below(registers: map<int, Bytes>, k: int): map<int, Bytes> {
    map i | i in registers && i < k :: registers[i]
  }

  /** What one entry's text pins: zero when it is empty, else the bytes it spells. */
  ghost predicate PinsValue(text: Bytes, value: Bytes) {
    if text == [] then value == Zeros(48) else |value| == 48 && text == HexEncode(value)
  }

  /** An rtmr array pins exactly the registers of m: those whose entry is not null. */
  ghost predicate PinsRtmrs(raw: seq<Option<Bytes>>, m: map<int, Bytes>) {
    && (raw == [] || raw[0].None?)
    && (forall i :: i in m <==> 0 <= i < |raw| && raw[i].Some?)
    && forall i :: i in m ==> PinsValue(raw[i].value, m[i])
  }

  lemma ValueExact(text: Bytes, value: Bytes)
    ensures PinsValue(text, value) <==> if text == [] then value == Zeros(48) else ParseDigest(text, 48) == Ok(value)
  {
    ParseDigestExact(text, 48, value);
  }

  lemma PinsNull(raw: seq<Option<Bytes>>, m: map<int, Bytes>)
    requires raw != [] && raw[|raw| - 1].None?
    ensures PinsRtmrs(raw, m) <==> PinsRtmrs(raw[..|raw| - 1], m)
  {
    var front := raw[..|raw| - 1];
    assert forall i :: 0 <= i < |front| ==> front[i] == raw[i];
  }

  lemma PinsOne(raw: seq<Option<Bytes>>, before: map<int, Bytes>, value: Bytes)
    requires |raw| > 1 && raw[|raw| - 1].Some? && PinsValue(raw[|raw| - 1].value, value)
    requires PinsRtmrs(raw[..|raw| - 1], before)
    ensures PinsRtmrs(raw, before[|raw| - 1 := value])
  {
    var front := raw[..|raw| - 1];
    assert forall i :: 0 <= i < |front| ==> front[i] == raw[i];
  }

  lemma PinsFront(raw: seq<Option<Bytes>>, m: map<int, Bytes>)
    requires raw != [] && raw[|raw| - 1].Some? && PinsRtmrs(raw, m)
    ensures |raw| > 1 && PinsRtmrs(raw[..|raw| - 1], Below(m, |raw| - 1))
            && PinsValue(raw[|raw| - 1].value, m[|raw| - 1])
    ensures m == Below(m, |raw| - 1)[|raw| - 1 := m[|raw| - 1]]
  {
    var front := raw[..|raw| - 1];
    assert forall i :: 0 <= i < |front| ==> front[i] == raw[i];
  }

  lemma {:induction false} DecodedPins(raw: seq<Option<Bytes>>)
    requires DecodeRtmrs(raw).Ok?
    ensures PinsRtmrs(raw, DecodeRtmrs(raw).value)
    decreases |raw|
  {
    if raw != [] {
      var idx := |raw| - 1;
      DecodedPins(raw[..idx]);
      if raw[idx].None? {
        PinsNull(raw, DecodeRtmrs(raw).value);
      } else {
        var value := DecodeRtmrs(raw).value[idx];
        ValueExact(raw[idx].value, value);
        PinsOne(raw, DecodeRtmrs(raw[..idx]).value, value);
      }
    }
  }

  lemma {:induction false} PinnedDecodes(raw: seq<Option<Bytes>>, m: map<int, Bytes>)
    requires PinsRtmrs(raw, m)
    ensures DecodeRtmrs(raw) == Ok(m)
    decreases |raw|
  {
    if raw != [] {
      var idx := |raw| - 1;
      if raw[idx].None? {
        PinsNull(raw, m);
        PinnedDecodes(raw[..idx], m);
      } else {
        PinsFront(raw, m);
        PinnedDecodes(raw[..idx], Below(m, idx));
        ValueExact(raw[idx].value, m[idx]);
      }
    } else if m.Keys != {} {
      var i := AnElement(m.Keys);
    }
  }

  /** The registers an rtmr array pins, or an error exactly when it pins none that
      way: too long, RTMR[0], or a value that is not 48 bytes of hex. */
  method ReadRtmrs(raw: seq<Option<Bytes>>) returns (r: Result<map<int, Bytes>, ConfigError>)
    ensures r == if |raw| > 4 then Err(BadEntry) else DecodeRtmrs(raw)
    ensures r.Ok? ==> |raw| <= 4 && PinsRtmrs(raw, r.value)
    ensures r.Err? ==> |raw| > 4 || forall m :: !PinsRtmrs(raw, m)
  {
    r := ScanRtmrs(raw);
    if r.Ok? {
      DecodedPins(raw);
    } else if |raw| <= 4 {
      forall m | PinsRtmrs(raw, m) ensures DecodeRtmrs(raw).Ok? {
        PinnedDecodes(raw, m);
      }
    }
  }

  /** The loop of decodeRTMRs. */
  method ScanRtmrs(raw: seq<Option<Bytes>>) returns (r: Result<map<int, Bytes>, ConfigError>)
    ensures r == if |raw| > 4 then Err(BadEntry) else DecodeRtmrs(raw)
  {
    if |raw| > 4 {
      return Err(BadEntry);
    }
    var out: map<int, Bytes> := map[];
    for idx := 0 to |raw|
      invariant DecodeRtmrs(raw[..idx]) == Ok(out)
    {
      assert raw[..idx + 1][..idx] == raw[..idx];
      if raw[idx].Some? {
        var v := raw[idx].value;
        if idx == 0 {
          FailedPrefix(raw, idx + 1);
          return Err(BadEntry);
        }
        if v == [] {
          out := out[idx := Zeros(48)];
        } else {
          var d := ParseDigest(v, 48);
          if d.Err? {
            FailedPrefix(raw, idx + 1);
            return Err(BadEntry);
          }
          out := out[idx := d.value];
        }
      }
    }
    assert raw[..|raw|] == raw;
    return Ok(out);
  }

  lemma {:induction false} FailedPrefix(raw: seq<Option<Bytes>>, k: nat)
    requires k <= |raw| && DecodeRtmrs(raw[..k]) == Err(BadEntry)
    ensures DecodeRtmrs(raw) == Err(BadEntry)
    decreases |raw|
  {
    if k == |raw| {
      assert raw[..k] == raw;
    } else {
      var front := raw[..|raw| - 1];
      assert front[..k] == raw[..k];
      FailedPrefix(front, k);
    }
  }

  /** The digest and registers of an entry, by the family's own fields. */
  function ReadMeasurement(fam: Family, we: WireImage): Result<(Bytes, map<int, Bytes>), ConfigError> {
    match fam
    case UnknownFamily => Err(BadEntry)
    case SevSnp =>
      if we.mrtd.Some? || we.rtmr.Some? || we.measurement.None? then Err(BadEntry)
      else (match ParseDigest(we.measurement.value, 48) case Err(_) => Err(BadEntry) case Ok(d) => Ok((d, map[])))
    case Tdx =>
      if we.measurement.Some? || we.mrtd.None? then Err(BadEntry)
      else match ParseDigest(we.mrtd.value, 48)
        case Err(_) => Err(BadEntry)
        case Ok(d) =>
          var raw := if we.rtmr.Some? then we.rtmr.value else [];
          if |raw| > 4 then Err(BadEntry)
          else match DecodeRtmrs(raw) case Err(e) => Err(e) case Ok(m) => Ok((d, m))
  }

  function CountBindings(we: WireImage): nat {
    (if we.approverKey.Absent? then 0 else 1) + (if we.launchFile.Absent? then 0 else 1)
    + (if we.launchFileDigest.Absent? then 0 else 1)
  }

  /** pinLaunchBinding. */
  function PinLaunchBinding(lib: Library, fam: Family, we: WireImage, img: ImagePin): Result<ImagePin, ConfigError> {
    if we.approverKey.Null? || we.launchFile.Null? || we.launchFileDigest.Null? || CountBindings(we) > 1
        then Err(BadEntry)
    else if !we.approverKey.Absent? then
      if we.approverKey.JsonText? && we.approverKey.text != [] && lib.isPublicKey(we.approverKey.text)
      then Ok(img.(anchor := Some(we.approverKey.text))) else Err(BadEntry)
    else if !we.launchFile.Absent? then
      if we.launchFile.JsonText? && we.launchFile.text != []
      then Ok(img.(launchFile := Some(we.launchFile.text))) else Err(BadEntry)
    else if !we.launchFileDigest.Absent? then
      if !we.launchFileDigest.JsonText? then Err(BadEntry)
      else match ParseLaunchFileDigest(lib.h, fam, we.launchFileDigest.text)
        case Err(_) => Err(BadEntry)
        case Ok(d) => Ok(img.(launchFileDigest := Some(d)))
    else Ok(img)
  }

  /** wireImage.validate. */
  function ValidateImage(lib: Library, fam: Family, we: WireImage): Result<ImagePin, ConfigError> {
    if TrimSpace(we.name) == [] then Err(BadEntry)
    else match ReadMeasurement(fam, we)
      case Err(e) => Err(e)
      case Ok((d, registers)) =>
        PinLaunchBinding(lib, fam, we, ImagePin(we.name, d, registers, None, None, None, None))
  }

  /** wireImage.validate, with its register loop. */
  method ReadEntry(lib: Library, fam: Family, we: WireImage) returns (r: Result<ImagePin, ConfigError>)
    ensures r == ValidateImage(lib, fam, we)
  {
    if TrimSpace(we.name) == [] {
      return Err(BadEntry);
    }
    var m := ReadMeasurementFields(fam, we);
    if m.Err? {
      return Err(m.error);
    }
    return PinLaunchBinding(lib, fam, we, ImagePin(we.name, m.value.0, m.value.1, None, None, None, None));
  }

  method ReadMeasurementFields(fam: Family, we: WireImage) returns (r: Result<(Bytes, map<int, Bytes>), ConfigError>)
    ensures r == ReadMeasurement(fam, we)
  {
    if fam != Tdx || we.measurement.Some? || we.mrtd.None? {
      return ReadMeasurement(fam, we);
    }
    var d := ParseDigest(we.mrtd.value, 48);
    if d.Err? {
      return Err(BadEntry);
    }
    var m := ReadRtmrs(if we.rtmr.Some? then we.rtmr.value else []);
    return if m.Ok? then Ok((d.value, m.value)) else Err(m.error);
  }

  // --------------------------------------------------------- whole documents

  predicate PinsLaunchFile(images: seq<ImagePin>) {
    exists i :: 0 <= i < |images| && (images[i].launchFile.Some? || images[i].launchFileDigest.Some?)
  }

  ghost predicate EntriesOk(lib: Library, fam: Family, entries: seq<WireImage>) {
    forall i :: 0 <= i < |entries| ==> ValidateImage(lib, fam, entries[i]).Ok?
  }

  function ReadEntries(lib: Library, fam: Family, entries: seq<WireImage>): (r: seq<ImagePin>)
    requires forall i :: 0 <= i < |entries| ==> ValidateImage(lib, fam, entries[i]).Ok?
    ensures |r| == |entries| && forall i :: 0 <= i < |r| ==> Ok(r[i]) == ValidateImage(lib, fam, entries[i])
  {
    seq(|entries|, i requires 0 <= i < |entries| => ValidateImage(lib, fam, entries[i]).value)
  }

  /** No two images share a name or pin one tuple. */
  ghost predicate Distinct(images: seq<ImagePin>) {
    forall i, j :: 0 <= i < j < |images| ==> images[i].name != images[j].name && !SameTuple(images[i], images[j])
  }

  ghost predicate Validates(lib: Library, f: Wire, allowEmpty: bool) {
    && (f.schema == SCHEMA_1 || f.schema == SCHEMA_2)
    && ParseFamily(f.tee).Ok?
    && (allowEmpty || f.measurements != [])
    && EntriesOk(lib, ParseFamily(f.tee).value, f.measurements)
    && Distinct(ReadBack(lib, f).images)
    && (PinsLaunchFile(ReadBack(lib, f).images) ==> f.schema == SCHEMA_2)
  }

  function ReadBack(lib: Library, f: Wire): ReferenceValues
    requires ParseFamily(f.tee).Ok? && forall i :: 0 <= i < |f.measurements| ==>
               ValidateImage(lib, ParseFamily(f.tee).value, f.measurements[i]).Ok?
  {
    var fam := ParseFamily(f.tee).value;
    ReferenceValues(fam, ReadEntries(lib, fam, f.measurements))
  }

  function NamesOf(images: seq<ImagePin>): (r: seq<Bytes>)
    ensures |r| == |images| && forall i :: 0 <= i < |r| ==> r[i] == images[i].name
  {
    seq(|images|, i requires 0 <= i < |images| => images[i].name)
  }

  /** img repeats a name or a tuple of images. */
  ghost predicate Repeats(images: seq<ImagePin>, img: ImagePin) {
    exists j :: 0 <= j < |images| && (images[j].name == img.name || SameTuple(images[j], img))
  }

  /** What names and tuples say of one more image, and how they grow with it. */
  lemma IndexStep(images: seq<ImagePin>, keys: seq<Bytes>, names: set<Bytes>, tuples: map<Bytes, nat>, img: ImagePin,
                  key: Bytes)
    requires Distinct(images) && |keys| == |images|
    requires names == Elements(NamesOf(images)) && tuples.Keys == Elements(keys)
    requires forall j :: 0 <= j < |images| ==> (keys[j] == key <==> SameTuple(images[j], img))
    ensures img.name in names || key in tuples <==> Repeats(images, img)
    ensures !Repeats(images, img) ==> Distinct(images + [img])
    ensures names + {img.name} == Elements(NamesOf(images + [img]))
    ensures tuples.Keys + {key} == Elements(keys + [key])
  {
    assert NamesOf(images + [img]) == NamesOf(images) + [img.name];
    if img.name in names {
      var j :| 0 <= j < |images| && NamesOf(images)[j] == img.name;
    }
    if Repeats(images, img) {
      var j :| 0 <= j < |images| && (images[j].name == img.name || SameTuple(images[j], img));
      assert NamesOf(images)[j] in NamesOf(images) && keys[j] in keys;
    }
  }

  /** The loop of wire.validate over entries: names and tuple keys seen so far. */
  method ReadDistinct(lib: Library, fam: Family, entries: seq<WireImage>)
    returns (r: Result<seq<ImagePin>, ConfigError>)
    ensures r.Ok? <==> EntriesOk(lib, fam, entries) && Distinct(ReadEntries(lib, fam, entries))
    ensures r.Ok? ==> r.value == ReadEntries(lib, fam, entries)
  {
    var images: seq<ImagePin> := [];
    var names: set<Bytes> := {};
    var tuples: map<Bytes, nat> := map[];
    ghost var keys: seq<Bytes> := [];
    for i := 0 to |entries|
      invariant |images| == i && Distinct(images) && Keyed(images, keys)
      invariant names == Elements(NamesOf(images)) && tuples.Keys == Elements(keys)
      invariant ReadSoFar(lib, fam, entries, images)
    {
      var v := ReadEntry(lib, fam, entries[i]);
      if v.Err? {
        return Err(v.error);
      }
      var img := v.value;
      var key := NextKey(img, images, keys);
      IndexStep(images, keys, names, tuples, img, key);
      if img.name in names || key in tuples {
        NotDistinct(lib, fam, entries, images, img);
        return Err(if img.name in names then DuplicateName else DuplicateTuple);
      }
      ReadSnoc(lib, fam, entries, images, img);
      names, tuples := names + {img.name}, tuples[key := i];
      images, keys := images + [img], keys + [key];
    }
    assert EntriesOk(lib, fam, entries) && images == ReadEntries(lib, fam, entries);
    return Ok(images);
  }

  ghost predicate ReadSoFar(lib: Library, fam: Family, entries: seq<WireImage>, images: seq<ImagePin>) {
    |images| <= |entries|
    && forall j {:trigger ValidateImage(lib, fam, entries[j])} :: 0 <= j < |images| ==>
         Ok(images[j]) == ValidateImage(lib, fam, entries[j])
  }

  lemma ReadSnoc(lib: Library, fam: Family, entries: seq<WireImage>, images: seq<ImagePin>, img: ImagePin)
    requires ReadSoFar(lib, fam, entries, images)
    requires |images| < |entries| && Ok(img) == ValidateImage(lib, fam, entries[|images|])
    ensures ReadSoFar(lib, fam, entries, images + [img])
  {
  }

  lemma NotDistinct(lib: Library, fam: Family, entries: seq<WireImage>, images: seq<ImagePin>, img: ImagePin)
    requires |images| < |entries| && Ok(img) == ValidateImage(lib, fam, entries[|images|])
    requires ReadSoFar(lib, fam, entries, images)
    requires Repeats(images, img)
    ensures !(EntriesOk(lib, fam, entries) && Distinct(ReadEntries(lib, fam, entries)))
  {
    if EntriesOk(lib, fam, entries) {
      var all := ReadEntries(lib, fam, entries);
      var j :| 0 <= j < |images| && (images[j].name == img.name || SameTuple(images[j], img));
      assert Ok(all[j]) == ValidateImage(lib, fam, entries[j])
          && Ok(all[|images|]) == ValidateImage(lib, fam, entries[|images|]);
      assert all[j] == images[j] && all[|images|] == img;
    }
  }

  /** wire.validate. */
  method Validate(lib: Library, f: Wire, allowEmpty: bool) returns (r: Result<ReferenceValues, ConfigError>)
    ensures r.Ok? <==> Validates(lib, f, allowEmpty)
    ensures r.Ok? ==> r.value == ReadBack(lib, f)
    ensures f.schema != SCHEMA_1 && f.schema != SCHEMA_2 ==> r == Err(BadSchema)
    ensures (f.schema == SCHEMA_1 || f.schema == SCHEMA_2) && ParseFamily(f.tee).Err? ==> r == Err(BadTee)
    ensures && (f.schema == SCHEMA_1 || f.schema == SCHEMA_2)
            && ParseFamily(f.tee).Ok? && f.measurements == [] && !allowEmpty
            ==> r == Err(NoMeasurements)
  {
    if f.schema != SCHEMA_1 && f.schema != SCHEMA_2 {
      return Err(BadSchema);
    }
    var fam := ParseFamily(f.tee);
    if fam.Err? {
      return Err(BadTee);
    }
    if f.measurements == [] && !allowEmpty {
      return Err(NoMeasurements);
    }
    var images := ReadDistinct(lib, fam.value, f.measurements);
    if images.Err? {
      return Err(images.error);
    }
    if PinsLaunchFile(images.value) && f.schema != SCHEMA_2 {
      return Err(BadSchema);
    }
    return Ok(ReferenceValues(fam.value, images.value));
  }

  // ----------------------------------------------------------------- writing

  function TextField(lib: Library, value: Option<Bytes>): Result<Raw, ConfigError> {
    match value
    case None => Ok(Absent)
    case Some(b) => if lib.isUtf8(b) then Ok(JsonText(b)) else Err(BadField)
  }

  function DigestField(lib: Library, fam: Family, value: Option<Bytes>): Result<Raw, ConfigError> {
    match value
    case None => Ok(Absent)
    case Some(d) => if CheckLaunchFileDigest(lib.h, fam, d).None? then Ok(JsonText(HexEncode(d))) else Err(BadField)
  }

  /** The four-entry rtmr array of a TDX entry, absent when nothing is pinned. */
  function RtmrField(registers: map<int, Bytes>): Result<Option<seq<Option<Bytes>>>, ConfigError> {
    if |registers| == 0 then Ok(None)
    else if exists i :: i in registers && (i <= 0 || i >= 4 || |registers[i]| != 48) then Err(BadField)
    else Ok(Some(seq(4, i => if i in registers then Some(HexEncode(registers[i])) else None)))
  }

  function FormatImage(lib: Library, fam: Family, img: ImagePin): Result<WireImage, ConfigError> {
    match (TextField(lib, img.anchor), TextField(lib, img.launchFile), DigestField(lib, fam, img.launchFileDigest))
    case (Ok(key), Ok(file), Ok(digest)) =>
      var d := HexEncode(img.digest);
      (match fam
       case UnknownFamily => Err(BadField)
       case SevSnp =>
         if |img.registers| > 0 then Err(BadField) else Ok(WireImage(img.name, Some(d), None, None, key, file, digest))
       case Tdx =>
         match RtmrField(img.registers)
         case Err(e) => Err(e)
         case Ok(rtmr) => Ok(WireImage(img.name, None, Some(d), rtmr, key, file, digest)))
    case _ => Err(BadField)
  }

  ghost predicate AllFormat(lib: Library, rv: ReferenceValues) {
    forall i :: 0 <= i < |rv.images| ==> FormatImage(lib, rv.family, rv.images[i]).Ok?
  }

  function SchemaFor(images: seq<ImagePin>): Bytes {
    if PinsLaunchFile(images) then SCHEMA_2 else SCHEMA_1
  }

  function WireOf(lib: Library, rv: ReferenceValues): (f: Wire)
    requires forall i :: 0 <= i < |rv.images| ==> FormatImage(lib, rv.family, rv.images[i]).Ok?
    ensures f.schema == SchemaFor(rv.images) && f.tee == FamilyName(rv.family) && |f.measurements| == |rv.images|
    ensures forall i :: 0 <= i < |rv.images| ==> Ok(f.measurements[i]) == FormatImage(lib, rv.family, rv.images[i])
  {
    Wire(SchemaFor(rv.images), FamilyName(rv.family),
         seq(|rv.images|, i requires 0 <= i < |rv.images| => FormatImage(lib, rv.family, rv.images[i]).value))
  }

  /** The sets Format renders. */
  ghost predicate Formats(lib: Library, rv: ReferenceValues) {
    AllFormat(lib, rv) && Validates(lib, WireOf(lib, rv), false)
  }

  /** Format, up to the JSON text: the document it writes has just been validated. */
  method Format(lib: Library, rv: ReferenceValues) returns (r: Result<Wire, ConfigError>)
    ensures r.Ok? <==> Formats(lib, rv)
    ensures r.Ok? ==> r.value == WireOf(lib, rv)
  {
    var entries: seq<WireImage> := [];
    for i := 0 to |rv.images|
      invariant |entries| == i
      invariant forall j :: 0 <= j < i ==> Ok(entries[j]) == FormatImage(lib, rv.family, rv.images[j])
    {
      var we := FormatImage(lib, rv.family, rv.images[i]);
      if we.Err? {
        return Err(we.error);
      }
      entries := entries + [we.value];
    }
    var f := Wire(SchemaFor(rv.images), FamilyName(rv.family), entries);
    assert AllFormat(lib, rv) && f.measurements == WireOf(lib, rv).measurements;
    var v := Validate(lib, f, false);
    return if v.Ok? then Ok(f) else Err(v.error);
  }

  // -------------------------------------------------------------- round trip

  /** What a validated entry is: the pins one document entry can express. */
  ghost predicate Expressible(lib: Library, fam: Family, img: ImagePin) {
    && TrimSpace(img.name) != [] && |img.digest| == 48
    && fam != UnknownFamily
    && (fam == SevSnp ==> img.registers == map[])
    && (forall i :: i in img.registers ==> 0 < i < 4 && |img.registers[i]| == 48)
    && !(img.anchor.Some? && img.launchFile.Some?)
    && !(img.anchor.Some? && img.launchFileDigest.Some?)
    && !(img.launchFile.Some? && img.launchFileDigest.Some?)
    && (img.anchor.Some? ==>
          img.anchor.value != [] && lib.isPublicKey(img.anchor.value) && lib.isUtf8(img.anchor.value))
    && (img.launchFile.Some? ==> img.launchFile.value != [] && lib.isUtf8(img.launchFile.value))
    && (img.launchFileDigest.Some? ==> CheckLaunchFileDigest(lib.h, fam, img.launchFileDigest.value).None?)
  }

  lemma EmptyMap(m: map<int, Bytes>)
    ensures |m| == 0 <==> m == map[]
  {
  }

  /** Reading the rtmr array of a pinned register map gives the map back. */
  lemma RtmrRoundTrip(registers: map<int, Bytes>)
    requires forall i :: i in registers ==> 0 < i < 4 && |registers[i]| == 48
    ensures RtmrField(registers).Ok?
    ensures var field := RtmrField(registers).value;
            DecodeRtmrs(if field.Some? then field.value else []) == Ok(registers)
  {
    EmptyMap(registers);
    if |registers| > 0 {
      var raw := RtmrField(registers).value.value;
      RtmrPrefix(registers, raw, 4);
      assert raw[..4] == raw;
      assert Below(registers, 4) == registers;
    }
  }

  lemma BelowStep(registers: map<int, Bytes>, k: int)
    ensures Below(registers, k + 1) ==
            if k in registers then Below(registers, k)[k := registers[k]] else Below(registers, k)
  {
  }

  lemma {:induction false} RtmrPrefix(registers: map<int, Bytes>, raw: seq<Option<Bytes>>, k: nat)
    requires forall i :: i in registers ==> 0 < i < 4 && |registers[i]| == 48
    requires |raw| == 4 && k <= 4
    requires forall i :: 0 <= i < 4 ==> raw[i] == if i in registers then Some(HexEncode(registers[i])) else None
    ensures DecodeRtmrs(raw[..k]) == Ok(Below(registers, k))
  {
    if k == 0 {
      assert Below(registers, 0) == map[];
    } else {
      RtmrPrefix(registers, raw, k - 1);
      BelowStep(registers, k - 1);
      assert raw[..k][..k - 1] == raw[..k - 1];
      if k - 1 in registers {
        ParseDigestExact(HexEncode(registers[k - 1]), 48, registers[k - 1]);
      }
    }
  }

  lemma DigestFieldRoundTrip(lib: Library, fam: Family, d: Bytes)
    requires fam != UnknownFamily && CheckLaunchFileDigest(lib.h, fam, d).None?
    ensures ParseLaunchFileDigest(lib.h, fam, HexEncode(d)) == Ok(d)
  {
    ParseDigestExact(HexEncode(d), |d|, d);
  }

  lemma MeasurementRoundTrip(lib: Library, fam: Family, img: ImagePin, we: WireImage)
    requires Expressible(lib, fam, img) && FormatImage(lib, fam, img) == Ok(we)
    ensures ReadMeasurement(fam, we) == Ok((img.digest, img.registers))
  {
    ParseDigestExact(HexEncode(img.digest), 48, img.digest);
    RtmrRoundTrip(img.registers);
  }

  lemma BindingRoundTrip(lib: Library, fam: Family, img: ImagePin, we: WireImage, bare: ImagePin)
    requires Expressible(lib, fam, img)
    requires TextField(lib, img.anchor) == Ok(we.approverKey) && TextField(lib, img.launchFile) == Ok(we.launchFile)
    requires DigestField(lib, fam, img.launchFileDigest) == Ok(we.launchFileDigest)
    requires bare == img.(anchor := None, launchFile := None, launchFileDigest := None, acceptExtension := None)
    ensures PinLaunchBinding(lib, fam, we, bare) == Ok(img.(acceptExtension := None))
  {
    if img.launchFileDigest.Some? {
      DigestFieldRoundTrip(lib, fam, img.launchFileDigest.value);
    }
  }

  lemma ExpressibleFormats(lib: Library, fam: Family, img: ImagePin)
    requires Expressible(lib, fam, img)
    ensures FormatImage(lib, fam, img).Ok?
  {
    RtmrRoundTrip(img.registers);
  }

  /** An expressible pin is written, and read back as it was but for its hook. */
  lemma ImageRoundTrip(lib: Library, fam: Family, img: ImagePin)
    requires Expressible(lib, fam, img)
    ensures FormatImage(lib, fam, img).Ok?
    ensures ValidateImage(lib, fam, FormatImage(lib, fam, img).value) == Ok(img.(acceptExtension := None))
  {
    ExpressibleFormats(lib, fam, img);
    var we := FormatImage(lib, fam, img).value;
    MeasurementRoundTrip(lib, fam, img, we);
    BindingRoundTrip(lib, fam, img, we, ImagePin(img.name, img.digest, img.registers, None, None, None, None));
  }

  /** The entry's text fields came out of a JSON decoder, so they are UTF-8. */
  ghost predicate DecodedText(lib: Library, we: WireImage) {
    && (we.approverKey.JsonText? ==> lib.isUtf8(we.approverKey.text))
    && (we.launchFile.JsonText? ==> lib.isUtf8(we.launchFile.text))
  }

  lemma ValidatedExpressible(lib: Library, fam: Family, we: WireImage)
    requires ValidateImage(lib, fam, we).Ok? && DecodedText(lib, we)
    ensures Expressible(lib, fam, ValidateImage(lib, fam, we).value)
    ensures ValidateImage(lib, fam, we).value.acceptExtension.None?
  {
  }

  /** A pin that is written and reads back at all is expressible. */
  lemma FormattedExpressible(lib: Library, fam: Family, img: ImagePin)
    requires FormatImage(lib, fam, img).Ok? && ValidateImage(lib, fam, FormatImage(lib, fam, img).value).Ok?
    ensures Expressible(lib, fam, img)
  {
    var we := FormatImage(lib, fam, img).value;
    var v := ValidateImage(lib, fam, we).value;
    ParseDigestExact(HexEncode(img.digest), 48, v.digest);
    HexInjective(img.digest, v.digest);
    EmptyMap(img.registers);
  }

  function Plain(images: seq<ImagePin>): (r: seq<ImagePin>)
    ensures |r| == |images| && forall i :: 0 <= i < |r| ==> r[i] == images[i].(acceptExtension := None)
  {
    seq(|images|, i requires 0 <= i < |images| => images[i].(acceptExtension := None))
  }

  /** Format succeeds exactly on a non-empty set of expressible, distinct pins. */
  lemma FormatsExactly(lib: Library, rv: ReferenceValues)
    ensures Formats(lib, rv) <==>
            && rv.images != [] && Distinct(rv.images)
            && forall i :: 0 <= i < |rv.images| ==> Expressible(lib, rv.family, rv.images[i])
  {
    if Formats(lib, rv) {
      FormatReadsBack(lib, rv);
      DistinctPlain(rv.images);
    } else if rv.images != [] && forall i :: 0 <= i < |rv.images| ==> Expressible(lib, rv.family, rv.images[i]) {
      assert Expressible(lib, rv.family, rv.images[0]);
      ExpressibleValidates(lib, rv);
      DistinctPlain(rv.images);
    }
  }

  lemma ExpressibleValidates(lib: Library, rv: ReferenceValues)
    requires rv.family != UnknownFamily
    requires forall i :: 0 <= i < |rv.images| ==> Expressible(lib, rv.family, rv.images[i])
    ensures AllFormat(lib, rv)
    ensures ParseFamily(WireOf(lib, rv).tee) == Ok(rv.family) && EntriesOk(lib, rv.family, WireOf(lib, rv).measurements)
    ensures ReadBack(lib, WireOf(lib, rv)) == ReferenceValues(rv.family, Plain(rv.images))
    ensures PinsLaunchFile(Plain(rv.images)) <==> PinsLaunchFile(rv.images)
  {
    FamilyNameParses(rv.family);
    forall i | 0 <= i < |rv.images|
      ensures FormatImage(lib, rv.family, rv.images[i]).Ok?
      ensures ValidateImage(lib, rv.family, FormatImage(lib, rv.family, rv.images[i]).value) == Ok(Plain(rv.images)[i])
    {
      ImageRoundTrip(lib, rv.family, rv.images[i]);
    }
    var f := WireOf(lib, rv);
    forall i | 0 <= i < |f.measurements|
      ensures ValidateImage(lib, rv.family, f.measurements[i]) == Ok(Plain(rv.images)[i])
    {
      assert Ok(f.measurements[i]) == FormatImage(lib, rv.family, rv.images[i]);
    }
    assert ReadEntries(lib, rv.family, f.measurements) == Plain(rv.images);
    PinsLaunchFilePlain(rv.images);
  }

  lemma PinsLaunchFilePlain(images: seq<ImagePin>)
    ensures PinsLaunchFile(Plain(images)) <==> PinsLaunchFile(images)
  {
    var p := Plain(images);
    if PinsLaunchFile(images) {
      var i :| 0 <= i < |images| && (images[i].launchFile.Some? || images[i].launchFileDigest.Some?);
      assert p[i].launchFile.Some? || p[i].launchFileDigest.Some?;
    }
  }

  lemma DistinctPlain(images: seq<ImagePin>)
    ensures Distinct(Plain(images)) <==> Distinct(images)
  {
    var p := Plain(images);
    if Distinct(p) {
      forall i, j | 0 <= i < j < |images| ensures images[i].name != images[j].name && !SameTuple(images[i], images[j]) {
        assert p[i].name != p[j].name && !SameTuple(p[i], p[j]);
      }
    }
  }

  /** Whenever Format succeeds, reading its document gives back the same family and
      the same pins in every field but the hook, under schema 2 exactly when a
      launch file is pinned. */
  lemma FormatReadsBack(lib: Library, rv: ReferenceValues)
    requires Formats(lib, rv)
    ensures rv.images != [] && rv.family != UnknownFamily
    ensures forall i :: 0 <= i < |rv.images| ==> Expressible(lib, rv.family, rv.images[i])
    ensures ReadBack(lib, WireOf(lib, rv)) == ReferenceValues(rv.family, Plain(rv.images))
    ensures WireOf(lib, rv).schema == SCHEMA_2 <==> PinsLaunchFile(rv.images)
  {
    var f := WireOf(lib, rv);
    FamilyNameParses(rv.family);
    forall i | 0 <= i < |rv.images| ensures Expressible(lib, rv.family, rv.images[i]) {
      assert ValidateImage(lib, rv.family, f.measurements[i]).Ok?;
      FormattedExpressible(lib, rv.family, rv.images[i]);
    }
    ExpressibleValidates(lib, rv);
  }

  /** Every document that validates is a set that formats, and what is written
      validates to that same set again. */
  lemma ValidatedFormats(lib: Library, f: Wire)
    requires Validates(lib, f, false)
    requires forall i :: 0 <= i < |f.measurements| ==> DecodedText(lib, f.measurements[i])
    ensures Formats(lib, ReadBack(lib, f))
    ensures ReadBack(lib, WireOf(lib, ReadBack(lib, f))) == ReadBack(lib, f)
  {
    var rv := ReadBack(lib, f);
    forall i | 0 <= i < |rv.images|
      ensures Expressible(lib, rv.family, rv.images[i]) && rv.images[i].acceptExtension.None?
    {
      assert Ok(rv.images[i]) == ValidateImage(lib, rv.family, f.measurements[i]);
      ValidatedExpressible(lib, rv.family, f.measurements[i]);
    }
    FormatsExactly(lib, rv);
    FormatReadsBack(lib, rv);
    assert Plain(rv.images) == rv.images;
  }

  /** Render's document for a set that pins nothing reads back as nothing pinned. */
  lemma RenderedEmpty(lib: Library, fam: Family)
    ensures Validates(lib, Wire(SCHEMA_1, FamilyName(fam), []), true) <==> fam != UnknownFamily
    ensures fam != UnknownFamily ==> ReadBack(lib, Wire(SCHEMA_1, FamilyName(fam), [])) == ReferenceValues(fam, [])
  {
    FamilyNameParses(fam);
  }

  // ------------------------------------------------- names in the JSON text

  /** The encoder replaces invalid UTF-8 and nothing else; a replacement character
      is not white space. */
  ghost predicate Coerces(lib: Library) {
    && (forall b :: lib.isUtf8(b) <==> lib.coerce(b) == b)
    && (forall b :: TrimSpace(b) != [] ==> TrimSpace(lib.coerce(b)) != [])
  }

  /** The document as a reader decodes it. Launch binding fields were refused
      unless they are UTF-8, so only names can come back changed. */
  function Document(lib: Library, f: Wire): (d: Wire)
    ensures |d.measurements| == |f.measurements|
    ensures forall i :: 0 <= i < |f.measurements| ==>
              d.measurements[i] == f.measurements[i].(name := lib.coerce(f.measurements[i].name))
  {
    f.(measurements := seq(|f.measurements|, i requires 0 <= i < |f.measurements| =>
      f.measurements[i].(name := lib.coerce(f.measurements[i].name))))
  }

  /** The images under the names their document carries. */
  function Renamed(lib: Library, images: seq<ImagePin>): (r: seq<ImagePin>)
    ensures |r| == |images| && forall i :: 0 <= i < |r| ==> r[i] == images[i].(name := lib.coerce(images[i].name))
  {
    seq(|images|, i requires 0 <= i < |images| => images[i].(name := lib.coerce(images[i].name)))
  }

  ghost predicate NamesApart(lib: Library, images: seq<ImagePin>) {
    forall i, j :: 0 <= i < j < |images| ==> lib.coerce(images[i].name) != lib.coerce(images[j].name)
  }

  lemma RenamedEntry(lib: Library, fam: Family, we: WireImage)
    requires Coerces(lib) && ValidateImage(lib, fam, we).Ok?
    ensures ValidateImage(lib, fam, we.(name := lib.coerce(we.name))) ==
            Ok(ValidateImage(lib, fam, we).value.(name := lib.coerce(we.name)))
    ensures ValidateImage(lib, fam, we).value.name == we.name
  {
  }

  /** A set that formats is a set that loads exactly when the encoder keeps its
      names apart; what loads then is the set under the names it wrote. */
  lemma DocumentLoads(lib: Library, rv: ReferenceValues)
    requires Formats(lib, rv) && Coerces(lib)
    ensures Validates(lib, Document(lib, WireOf(lib, rv)), false) <==> NamesApart(lib, rv.images)
    ensures NamesApart(lib, rv.images) ==>
              ReadBack(lib, Document(lib, WireOf(lib, rv)))
                  == ReferenceValues(rv.family, Renamed(lib, Plain(rv.images)))
  {
    FormatReadsBack(lib, rv);
    FamilyNameParses(rv.family);
    var f := WireOf(lib, rv);
    var d := Document(lib, f);
    var plain := Plain(rv.images);
    var renamed := Renamed(lib, plain);
    assert ReadEntries(lib, rv.family, f.measurements) == plain;
    forall i | 0 <= i < |d.measurements| ensures ValidateImage(lib, rv.family, d.measurements[i]) == Ok(renamed[i]) {
      assert Ok(plain[i]) == ValidateImage(lib, rv.family, f.measurements[i]);
      RenamedEntry(lib, rv.family, f.measurements[i]);
    }
    assert ReadEntries(lib, rv.family, d.measurements) == renamed;
    RenamedDistinct(lib, rv.images);
    RenamedPins(lib, plain);
  }

  lemma RenamedDistinct(lib: Library, images: seq<ImagePin>)
    requires Distinct(Plain(images))
    ensures Distinct(Renamed(lib, Plain(images))) <==> NamesApart(lib, images)
  {
    var plain := Plain(images);
    var renamed := Renamed(lib, plain);
    if Distinct(renamed) {
      forall i, j | 0 <= i < j < |images| ensures lib.coerce(images[i].name) != lib.coerce(images[j].name) {
        assert renamed[i].name != renamed[j].name;
      }
    }
    if NamesApart(lib, images) {
      forall i, j | 0 <= i < j < |images|
        ensures renamed[i].name != renamed[j].name && !SameTuple(renamed[i], renamed[j])
      {
        assert !SameTuple(plain[i], plain[j]);
      }
    }
  }

  lemma RenamedPins(lib: Library, images: seq<ImagePin>)
    ensures PinsLaunchFile(Renamed(lib, images)) <==> PinsLaunchFile(images)
  {
    var r := Renamed(lib, images);
    if PinsLaunchFile(images) {
      var i :| 0 <= i < |images| && (images[i].launchFile.Some? || images[i].launchFileDigest.Some?);
      assert r[i].launchFile.Some? || r[i].launchFileDigest.Some?;
    }
  }

  /** It loads as the very set that was written exactly when every name is UTF-8. */
  lemma DocumentLoadsSame(lib: Library, rv: ReferenceValues)
    requires Formats(lib, rv) && Coerces(lib)
    ensures && Validates(lib, Document(lib, WireOf(lib, rv)), false)
            && ReadBack(lib, Document(lib, WireOf(lib, rv))) == ReferenceValues(rv.family, Plain(rv.images))
            <==> forall i :: 0 <= i < |rv.images| ==> lib.isUtf8(rv.images[i].name)
  {
    DocumentLoads(lib, rv);
    FormatReadsBack(lib, rv);
    DistinctPlain(rv.images);
    FormatsExactly(lib, rv);
    var plain := Plain(rv.images);
    var renamed := Renamed(lib, plain);
    if forall i :: 0 <= i < |rv.images| ==> lib.isUtf8(rv.images[i].name) {
      assert renamed == plain;
    } else {
      var i :| 0 <= i < |rv.images| && !lib.isUtf8(rv.images[i].name);
      assert renamed[i].name != plain[i].name;
    }
  }

  function NamedPin(name: Byte): ImagePin {
    ImagePin([name], Zeros(47) + [name], map[], None, None, None, None)
  }

  lemma NamedPinExpressible(lib: Library, name: Byte)
    requires name >= 0xF0
    ensures Expressible(lib, SevSnp, NamedPin(name))
  {
    assert LeadingSpace([name]) == 0 && TrailingSpace([name]) == 0;
  }

  lemma NamedPinsDistinct(a: Byte, b: Byte)
    requires a != b
    ensures Distinct([NamedPin(a), NamedPin(b)])
  {
    assert NamedPin(a).name[0] != NamedPin(b).name[0] && NamedPin(a).digest[47] != NamedPin(b).digest[47];
  }

  /** Two names that are not UTF-8 and are written alike: the set formats, and its
      own document is refused for a duplicate name. */
  lemma WrittenNamesCollide(lib: Library) returns (rv: ReferenceValues)
    requires Coerces(lib) && lib.coerce([0xFF]) == lib.coerce([0xFE]) == [0xEF, 0xBF, 0xBD]
    ensures Formats(lib, rv) && !Validates(lib, Document(lib, WireOf(lib, rv)), false)
  {
    var pins := [NamedPin(0xFF), NamedPin(0xFE)];
    rv := ReferenceValues(SevSnp, pins);
    NamedPinExpressible(lib, 0xFF);
    NamedPinExpressible(lib, 0xFE);
    NamedPinsDistinct(0xFF, 0xFE);
    FormatsExactly(lib, rv);
    DocumentLoads(lib, rv);
    NamesTogether(lib, pins);
  }

  lemma NamesTogether(lib: Library, images: seq<ImagePin>)
    requires |images| == 2 && lib.coerce(images[0].name) == lib.coerce(images[1].name)
    ensures !NamesApart(lib, images)
  {
  }

  // ------------------------------------------------------ entries, spelled out

  /** Which of the three binding fields an entry writes. */
  function Written(raw: Raw): nat {
    if raw == Absent then 0 else 1
  }

  /** The entry's binding fields spell img's bindings: at most one, never null. */
  ghost predicate SpellsBinding(lib: Library, fam: Family, we: WireImage, img: ImagePin) {
    && Written(we.approverKey) + Written(we.launchFile) + Written(we.launchFileDigest) <= 1
    && (match img.anchor
        case None => we.approverKey == Absent
        case Some(key) => we.approverKey == JsonText(key) && key != [] && lib.isPublicKey(key))
    && (match img.launchFile
        case None => we.launchFile == Absent
        case Some(file) => we.launchFile == JsonText(file) && file != [])
    && (match img.launchFileDigest
        case None => we.launchFileDigest == Absent
        case Some(d) => we.launchFileDigest == JsonText(HexEncode(d)) && CommitsFile(lib.h, fam, d))
  }

  /** The entry spells img's digest and registers in its family's own fields, and leaves
      the other family's out. */
  ghost predicate SpellsMeasurement(fam: Family, we: WireImage, digest: Bytes, registers: map<int, Bytes>) {
    && |digest| == 48
    && match fam
       case UnknownFamily => false
       case SevSnp =>
         we.mrtd == None && we.rtmr == None && we.measurement == Some(HexEncode(digest)) && registers == map[]
       case Tdx =>
         && we.measurement == None && we.mrtd == Some(HexEncode(digest))
         && match we.rtmr
            case None => registers == map[]
            case Some(raw) => |raw| <= 4 && PinsRtmrs(raw, registers)
  }

  ghost predicate SpellsEntry(lib: Library, fam: Family, we: WireImage, img: ImagePin) {
    && TrimSpace(we.name) != [] && img.name == we.name && img.acceptExtension == None
    && SpellsMeasurement(fam, we, img.digest, img.registers)
    && SpellsBinding(lib, fam, we, img)
  }

  lemma RtmrsDecode(raw: seq<Option<Bytes>>, m: map<int, Bytes>)
    ensures DecodeRtmrs(raw) == Ok(m) <==> PinsRtmrs(raw, m)
  {
    if DecodeRtmrs(raw) == Ok(m) { DecodedPins(raw); }
    if PinsRtmrs(raw, m) { PinnedDecodes(raw, m); }
  }

  lemma NoRtmrsDecode(m: map<int, Bytes>)
    ensures DecodeRtmrs([]) == Ok(m) <==> m == map[]
  {
  }

  lemma MeasurementExact(fam: Family, we: WireImage, digest: Bytes, registers: map<int, Bytes>)
    ensures ReadMeasurement(fam, we) == Ok((digest, registers)) <==> SpellsMeasurement(fam, we, digest, registers)
  {
    if we.measurement.Some? { ParseDigestExact(we.measurement.value, 48, digest); }
    if we.mrtd.Some? { ParseDigestExact(we.mrtd.value, 48, digest); }
    NoRtmrsDecode(registers);
    if we.rtmr.Some? { RtmrsDecode(we.rtmr.value, registers); }
  }

  lemma BindingFieldsExact(lib: Library, fam: Family, we: WireImage, bare: ImagePin, img: ImagePin)
    requires bare == img.(anchor := None, launchFile := None, launchFileDigest := None)
    ensures PinLaunchBinding(lib, fam, we, bare) == Ok(img) <==> SpellsBinding(lib, fam, we, img)
  {
    if we.launchFileDigest.JsonText? && img.launchFileDigest.Some? {
      ParsedFileDigestExact(lib.h, fam, we.launchFileDigest.text, img.launchFileDigest.value);
    }
  }

  lemma BindingFieldsOnly(lib: Library, fam: Family, we: WireImage, bare: ImagePin, img: ImagePin)
    requires bare.anchor.None? && bare.launchFile.None? && bare.launchFileDigest.None?
    requires PinLaunchBinding(lib, fam, we, bare) == Ok(img)
    ensures bare == img.(anchor := None, launchFile := None, launchFileDigest := None)
  {
  }

  /** An entry is read as a pin exactly when it spells that pin, so a field of the other
      family, a second binding or a null refuses it. */
  lemma EntryExact(lib: Library, fam: Family, we: WireImage, img: ImagePin)
    ensures ValidateImage(lib, fam, we) == Ok(img) <==> SpellsEntry(lib, fam, we, img)
  {
    var bare := img.(anchor := None, launchFile := None, launchFileDigest := None);
    MeasurementExact(fam, we, img.digest, img.registers);
    BindingFieldsExact(lib, fam, we, bare, img);
    if ValidateImage(lib, fam, we) == Ok(img) {
      var (d, registers) := ReadMeasurement(fam, we).value;
      BindingFieldsOnly(lib, fam, we, ImagePin(we.name, d, registers, None, None, None, None), img);
    }
  }

  lemma SchemasSpelled()
    ensures SCHEMA_1 == Ascii("1") && SCHEMA_2 == Ascii("2")
  {
  }

  /** A document validates exactly when its schema is known and new enough, its family
      is named, it pins something or need not, and its entries spell pins of which no
      two share a name or a tuple. */
  lemma ValidatesExact(lib: Library, f: Wire, allowEmpty: bool, images: seq<ImagePin>, fam: Family)
    ensures Validates(lib, f, allowEmpty) && ReadBack(lib, f) == ReferenceValues(fam, images) <==>
            && (f.schema == Ascii("1") || f.schema == Ascii("2"))
            && ParseFamily(f.tee) == Ok(fam)
            && (f.measurements == [] ==> allowEmpty)
            && |images| == |f.measurements|
            && (forall i :: 0 <= i < |images| ==> SpellsEntry(lib, fam, f.measurements[i], images[i]))
            && (forall i, j :: 0 <= i < j < |images| ==>
                  images[i].name != images[j].name && !SameTuple(images[i], images[j]))
            && (f.schema == Ascii("1") ==>
                  forall i :: 0 <= i < |images| ==> images[i].launchFile == None && images[i].launchFileDigest == None)
  {
    SchemasSpelled();
    assert Ascii("1")[0] != Ascii("2")[0];
    if ParseFamily(f.tee) == Ok(fam) && |images| == |f.measurements| {
      forall i | 0 <= i < |images|
        ensures ValidateImage(lib, fam, f.measurements[i]) == Ok(images[i]) <==>
                SpellsEntry(lib, fam, f.measurements[i], images[i])
      {
        EntryExact(lib, fam, f.measurements[i], images[i]);
      }
      if && EntriesOk(lib, fam, f.measurements)
         && forall i :: 0 <= i < |images| ==> SpellsEntry(lib, fam, f.measurements[i], images[i])
      {
        assert ReadEntries(lib, fam, f.measurements) == images;
      }
    }
  }
}
