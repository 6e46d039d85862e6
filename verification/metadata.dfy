/** The per-entry metadata blob and its two encodings. A blob whose first two
    bytes are `bp` is read with the keyed-archive parser and its fields sit in
    the second element of `$objects` (`LastModified` as a Unix timestamp,
    `Size`); any other blob is read with the standard property-list parser
    and its fields are the top-level keys `modified` (a date) and `size`.
    Both parsers, and the conversion of a timestamp to local calendar time,
    are foreign code: they enter the model as partial functions. */
module Metadata {
  import opened Wrappers
  import opened Octets

  /** The fields of a `time.struct_time`. */
  datatype StructTime = StructTime(
    year: int, month: int, day: int, hour: int, minute: int, second: int,
    weekday: int, yearday: int, isdst: int)

  /** The first six fields of a `struct_time`, as a zip member stores them. */
  datatype DateTime = DateTime(year: int, month: int, day: int, hour: int, minute: int, second: int)

  /** `t[0:6]`. */
  function DateTimeOf(t: StructTime): DateTime {
    DateTime(t.year, t.month, t.day, t.hour, t.minute, t.second)
  }

  /** A decoded property-list value. */
  datatype PValue =
    | PBool(b: bool)
    | PInt(i: int)
    | PReal(x: real)
    | PString(s: string)
    | PData(d: Bytes)
    | PDate(t: StructTime)
    | PArray(items: seq<PValue>)
    | PDict(entries: map<string, PValue>)

  /** The foreign collaborators: the keyed-archive parser, the standard
      parser (each `None` where it raises), and `datetime.fromtimestamp`
      followed by `timetuple()` (`None` where the timestamp is out of range). */
  datatype Parsers = Parsers(
    bplistLoad: Bytes -> Option<PValue>,
    plistLoads: Bytes -> Option<PValue>,
    fromTimestamp: real -> Option<StructTime>)

  /** Why an accessor raises. The program catches none of these. */
  datatype DecodeError = Unparsable | MissingField | WrongType | TimestampOutOfRange

  const BplistMagic: Bytes := [0x62, 0x70]

  /** `meta[:2]`: at most the first two bytes. */
  function Head(meta: Bytes): Bytes {
    if |meta| <= 2 then meta else meta[..2]
  }

  /** The dispatch test `meta[:2] == b'bp'`, true exactly for blobs of at
      least two bytes starting with `b` then `p`. */
  predicate IsLegacy(meta: Bytes)
    ensures IsLegacy(meta) <==> |meta| >= 2 && meta[0] == 0x62 && meta[1] == 0x70
  {
    Head(meta) == BplistMagic
  }

  function Parsed(v: Option<PValue>): Result<PValue, DecodeError> {
    match v
    case Some(x) => Success(x)
    case None => Failure(Unparsable)
  }

  /** `v[key]`: only a dictionary can be read by key. */
  function Field(v: PValue, key: string): Result<PValue, DecodeError> {
    match v
    case PDict(m) => if key in m then Success(m[key]) else Failure(MissingField)
    case _ => Failure(WrongType)
  }

  /** `v[i]`: only a list can be read by position here. */
  function Item(v: PValue, i: nat): Result<PValue, DecodeError> {
    match v
    case PArray(items) => if i < |items| then Success(items[i]) else Failure(MissingField)
    case PDict(_) => Failure(MissingField)
    case _ => Failure(WrongType)
  }

  /** The numbers `fromtimestamp` accepts (a boolean is an integer in Python). */
  function Seconds(v: PValue): Result<real, DecodeError> {
    match v
    case PInt(i) => Success(i as real)
    case PReal(x) => Success(x)
    case PBool(b) => Success(if b then 1.0 else 0.0)
    case _ => Failure(WrongType)
  }

  /** `$objects[1]` of a keyed archive: the record carrying the fields. */
  function LegacyRecord(meta: Bytes, p: Parsers): Result<PValue, DecodeError> {
    var top :- Parsed(p.bplistLoad(meta));
    var objects :- Field(top, "$objects");
    Item(objects, 1)
  }

  /** `get_mod_time`: the modification time in local calendar fields. */
  function GetModTime(meta: Bytes, p: Parsers): (r: Result<StructTime, DecodeError>)
    ensures IsLegacy(meta) && p.bplistLoad(meta).None? ==> r == Failure(Unparsable)
    ensures !IsLegacy(meta) && p.plistLoads(meta).None? ==> r == Failure(Unparsable)
  {
    if IsLegacy(meta) then
      var record :- LegacyRecord(meta, p);
      var raw :- Field(record, "LastModified");
      var seconds :- Seconds(raw);
      match p.fromTimestamp(seconds)
      case Some(t) => Success(t)
      case None => Failure(TimestampOutOfRange)
    else
      var top :- Parsed(p.plistLoads(meta));
      var modified :- Field(top, "modified");
      match modified
      case PDate(t) => Success(t)
      case _ => Failure(WrongType)
  }

  /** `get_size`: the stored size, returned as whatever value it is. */
  function GetSize(meta: Bytes, p: Parsers): (r: Result<PValue, DecodeError>)
    ensures IsLegacy(meta) && p.bplistLoad(meta).None? ==> r == Failure(Unparsable)
    ensures !IsLegacy(meta) && p.plistLoads(meta).None? ==> r == Failure(Unparsable)
  {
    if IsLegacy(meta) then
      var record :- LegacyRecord(meta, p);
      Field(record, "Size")
    else
      var top :- Parsed(p.plistLoads(meta));
      Field(top, "size")
  }

  /** `top['$objects'][1]` is the dictionary `rec`: the shape of a keyed
      archive, whatever else its top level and its object list hold. */
  predicate HoldsRecord(top: PValue, rec: map<string, PValue>) {
    && top.PDict?
    && "$objects" in top.entries
    && top.entries["$objects"].PArray?
    && |top.entries["$objects"].items| >= 2
    && top.entries["$objects"].items[1] == PDict(rec)
  }

  /** Both accessors pick the keyed-archive parser for a `bp` blob: neither
      consults the standard parser then. */
  lemma LegacyIgnoresModernParser(meta: Bytes, p: Parsers, q: Parsers)
    requires IsLegacy(meta)
    requires p.bplistLoad(meta) == q.bplistLoad(meta) && p.fromTimestamp == q.fromTimestamp
    ensures GetModTime(meta, p) == GetModTime(meta, q)
    ensures GetSize(meta, p) == GetSize(meta, q)
  {
  }

  /** Both accessors pick the standard parser for any other blob: neither
      consults the keyed-archive parser nor the timestamp conversion then. */
  lemma ModernIgnoresLegacyParser(meta: Bytes, p: Parsers, q: Parsers)
    requires !IsLegacy(meta)
    requires p.plistLoads(meta) == q.plistLoads(meta)
    ensures GetModTime(meta, p) == GetModTime(meta, q)
    ensures GetSize(meta, p) == GetSize(meta, q)
  {
  }

  /** A `bp` blob parsed into a keyed archive: the size is `Size` of the
      record and the time is its `LastModified` number converted, with a
      missing key, a non-number or an out-of-range timestamp raising. */
  lemma DecodeLegacy(meta: Bytes, p: Parsers, top: PValue, rec: map<string, PValue>)
    requires IsLegacy(meta) && p.bplistLoad(meta) == Some(top) && HoldsRecord(top, rec)
    ensures GetSize(meta, p) == if "Size" in rec then Success(rec["Size"]) else Failure(MissingField)
    ensures "LastModified" !in rec ==> GetModTime(meta, p) == Failure(MissingField)
    ensures "LastModified" in rec && Seconds(rec["LastModified"]).Failure? ==>
      GetModTime(meta, p) == Failure(WrongType)
    ensures "LastModified" in rec && Seconds(rec["LastModified"]).Success? ==>
      var converted := p.fromTimestamp(Seconds(rec["LastModified"]).value);
      && (converted.Some? ==> GetModTime(meta, p) == Success(converted.value))
      && (converted.None? ==> GetModTime(meta, p) == Failure(TimestampOutOfRange))
  {
    assert LegacyRecord(meta, p) == Success(PDict(rec));
  }

  /** Any other blob parsed into a dictionary: the size is its `size` and the
      time is its `modified` date, with a missing key or a value that is no
      date raising. */
  lemma DecodeModern(meta: Bytes, p: Parsers, top: map<string, PValue>)
    requires !IsLegacy(meta) && p.plistLoads(meta) == Some(PDict(top))
    ensures GetSize(meta, p) == if "size" in top then Success(top["size"]) else Failure(MissingField)
    ensures "modified" !in top ==> GetModTime(meta, p) == Failure(MissingField)
    ensures "modified" in top && top["modified"].PDate? ==> GetModTime(meta, p) == Success(top["modified"].t)
    ensures "modified" in top && !top["modified"].PDate? ==> GetModTime(meta, p) == Failure(WrongType)
  {
  }

  /** Conversely, either accessor succeeds only on a well-shaped parse: a
      keyed archive holding a dictionary at `$objects[1]`, or a top-level
      dictionary. Any other parsed shape raises, as does a failed parse. */
  lemma SuccessNeedsShape(meta: Bytes, p: Parsers)
    requires GetModTime(meta, p).Success? || GetSize(meta, p).Success?
    ensures IsLegacy(meta) ==> exists top, rec :: p.bplistLoad(meta) == Some(top) && HoldsRecord(top, rec)
    ensures !IsLegacy(meta) ==> p.plistLoads(meta).Some? && p.plistLoads(meta).value.PDict?
  {
    if IsLegacy(meta) {
      var top := p.bplistLoad(meta).value;
      var rec := top.entries["$objects"].items[1].entries;
      assert HoldsRecord(top, rec);
    }
  }

  /** A keyed archive and a property list holding the same size decode to
      the same size. Their times decode alike exactly when the conversion
      turns the archive's number into the list's date. */
  lemma EncodingsAgree(legacy: Bytes, modern: Bytes, p: Parsers, top: PValue, rec: map<string, PValue>, plist: map<string, PValue>)
    requires IsLegacy(legacy) && p.bplistLoad(legacy) == Some(top) && HoldsRecord(top, rec)
    requires !IsLegacy(modern) && p.plistLoads(modern) == Some(PDict(plist))
    requires "Size" in rec && "size" in plist && rec["Size"] == plist["size"]
    requires "LastModified" in rec && Seconds(rec["LastModified"]).Success?
    requires "modified" in plist && plist["modified"].PDate?
    ensures GetSize(legacy, p) == GetSize(modern, p) == Success(plist["size"])
    ensures GetModTime(legacy, p) == GetModTime(modern, p) <==>
      p.fromTimestamp(Seconds(rec["LastModified"]).value) == Some(plist["modified"].t)
  {
    DecodeLegacy(legacy, p, top, rec);
    DecodeModern(modern, p, plist);
  }
}
