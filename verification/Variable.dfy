/** Time-based authenticated variables: the 60-byte header, the name and the data
    (VariableTimeBasedAuth, EfiTime; section 8.2 of UEFI 2.10). */
module Variables {
  import opened Bytes
  import opened Text
  import opened Guid

  const START_ID: U16 := 0x55aa
  const VAR_ADDED: Byte := 0x3f
  const HEADER_SIZE := 60

  /** One variable as held in memory. The attributes and sizes are unbounded Python integers. */
  datatype Variable = Variable(
    startId: U16, state: Byte, rsvd: Byte, attributes: int, count: U64, timeStamp: Bytes16,
    pkIndex: U32, nameSize: int, dataSize: int, vendorGuid: Bytes16, guidStr: string,
    nameBlob: Blob, data: Blob)

  /** The fields that struct.pack checks against 32 bits. */
  predicate Packable(v: Variable) {
    0 <= v.attributes < WORD && 0 <= v.nameSize < WORD && 0 <= v.dataSize < WORD
  }

  predicate SizesExact(v: Variable) {
    v.nameSize == |v.nameBlob| && v.dataSize == |v.data|
  }

  /** struct.pack("<HBBIQ16sIII16s", ...) */
  function Header(v: Variable): (h: Blob)
    requires Packable(v)
    ensures |h| == HEADER_SIZE
  {
    Le(v.startId, 2) + [v.state] + [v.rsvd] + Le(v.attributes, 4) + Le(v.count, 8) + v.timeStamp
    + Le(v.pkIndex, 4) + Le(v.nameSize, 4) + Le(v.dataSize, 4) + v.vendorGuid
  }

  /** VariableTimeBasedAuth.blob */
  function Encoded(v: Variable): Blob
    requires Packable(v)
  {
    Header(v) + v.nameBlob + v.data
  }

  /** struct.unpack of a 60-byte header; name and data are filled in by the body. */
  function ParseHeader(h: Blob): Variable
    requires |h| == HEADER_SIZE
  {
    Limits();
    FromLeInverse(h[0..2]); FromLeInverse(h[4..8]); FromLeInverse(h[8..16]);
    FromLeInverse(h[32..36]); FromLeInverse(h[36..40]); FromLeInverse(h[40..44]);
    Variable(FromLe(h[0..2]), h[2], h[3], FromLe(h[4..8]), FromLe(h[8..16]), h[16..32],
             FromLe(h[32..36]), FromLe(h[36..40]), FromLe(h[40..44]), h[44..60],
             Guid2Str(h[44..60]), [], [])
  }

  /** parse_body: raw is the record cut out of the store, possibly shorter than announced. */
  function WithBody(v: Variable, raw: Blob): Variable
    requires v.nameSize >= 0
  {
    v.(nameBlob := Slice(raw, HEADER_SIZE, HEADER_SIZE + v.nameSize),
       data := Slice(raw, HEADER_SIZE + v.nameSize, |raw|))
  }

  /** What a stored variable needs for its record to be delimited and read field by field. */
  predicate Framed(v: Variable) {
    v.startId == START_ID && v.state == VAR_ADDED && SizesExact(v) && Packable(v)
    && v.guidStr == Guid2Str(v.vendorGuid)
  }

  /** What it needs to be read back: its name must also decode. */
  predicate WellFormed(v: Variable) {
    Framed(v) && Utf8Valid(v.nameBlob)
  }

  /** The record of a variable that is in use starts with AA 55 3F. */
  lemma RecordStart(v: Variable)
    requires Framed(v)
    ensures |Header(v)| == 60 && Header(v)[0] == 0xaa && Header(v)[1] == 0x55 && Header(v)[2] == 0x3f
  {
    hide Guid2Str;
    HeaderSlices(v);
    ByteOrder(0x55aa, 2);
    ByteOrder(0x55, 1);
    assert Header(v)[0] == Header(v)[0..2][0] && Header(v)[1] == Header(v)[0..2][1];
  }

  /** Where the fields of the 60-byte header lie. */
  lemma HeaderSlices(v: Variable)
    requires Packable(v)
    ensures var h := Header(v);
      h[0..2] == Le(v.startId, 2) && h[2] == v.state && h[3] == v.rsvd && h[4..8] == Le(v.attributes, 4)
      && h[8..16] == Le(v.count, 8) && h[16..32] == v.timeStamp && h[32..36] == Le(v.pkIndex, 4)
      && h[36..40] == Le(v.nameSize, 4) && h[40..44] == Le(v.dataSize, 4) && h[44..60] == v.vendorGuid
  {
  }

  /** Unpacking a packed header gives every field back. */
  lemma HeaderInverse(v: Variable)
    requires Packable(v) && v.guidStr == Guid2Str(v.vendorGuid)
    ensures ParseHeader(Header(v)) == v.(nameBlob := [], data := [])
  {
    HeaderSlices(v);
    Limits();
    LeInverse(v.startId, 2); LeInverse(v.attributes, 4); LeInverse(v.count, 8);
    LeInverse(v.pkIndex, 4); LeInverse(v.nameSize, 4); LeInverse(v.dataSize, 4);
  }

  /** Packing an unpacked header gives the bytes back. */
  lemma ParsedHeaderInverse(h: Blob)
    requires |h| == HEADER_SIZE
    ensures Packable(ParseHeader(h)) && Header(ParseHeader(h)) == h
  {
    Limits();
    FromLeInverse(h[0..2]); FromLeInverse(h[4..8]); FromLeInverse(h[8..16]);
    FromLeInverse(h[32..36]); FromLeInverse(h[36..40]); FromLeInverse(h[40..44]);
    assert h == h[0..2] + [h[2]] + [h[3]] + h[4..8] + h[8..16] + h[16..32]
                + h[32..36] + h[36..40] + h[40..44] + h[44..60];
  }

  /** Reading the record of a variable gives the variable. */
  lemma RecordInverse(v: Variable)
    requires Framed(v)
    ensures |Encoded(v)| == HEADER_SIZE + v.nameSize + v.dataSize
    ensures Encoded(v)[..HEADER_SIZE] == Header(v)
    ensures WithBody(ParseHeader(Header(v)), Encoded(v)) == v
  {
    HeaderInverse(v);
    var e := Encoded(v);
    assert e[..HEADER_SIZE] == Header(v);
    assert e[HEADER_SIZE..HEADER_SIZE + v.nameSize] == v.nameBlob;
    assert e[HEADER_SIZE + v.nameSize..] == v.data;
  }

  // ---- EFI_TIME ----

  /** struct "<HBBBBBBIHBB"; the ranges are those of the packed fields. */
  datatype EfiTime = EfiTime(
    year: U16, month: Byte, day: Byte, hour: Byte, minute: Byte, second: Byte, pad1: Byte,
    nanosecond: U32, timezone: U16, daylight: Byte, pad2: Byte)

  /** EfiTime.blob */
  function TimeBlob(t: EfiTime): Bytes16 {
    Le(t.year, 2) + [t.month] + [t.day] + [t.hour] + [t.minute] + [t.second] + [t.pad1]
    + Le(t.nanosecond, 4) + Le(t.timezone, 2) + [t.daylight] + [t.pad2]
  }

  /** EfiTime(data) */
  function ParseTime(b: Bytes16): EfiTime {
    Limits();
    FromLeInverse(b[0..2]); FromLeInverse(b[8..12]); FromLeInverse(b[12..14]);
    EfiTime(FromLe(b[0..2]), b[2], b[3], b[4], b[5], b[6], b[7], FromLe(b[8..12]), FromLe(b[12..14]), b[14], b[15])
  }

  /** Where the fields of the 16-byte timestamp lie. */
  lemma TimeSlices(t: EfiTime)
    ensures var b := TimeBlob(t);
      && b[0..2] == Le(t.year, 2) && b[2] == t.month && b[3] == t.day && b[4] == t.hour && b[5] == t.minute
      && b[6] == t.second && b[7] == t.pad1 && b[8..12] == Le(t.nanosecond, 4) && b[12..14] == Le(t.timezone, 2)
      && b[14] == t.daylight && b[15] == t.pad2
  {
    hide Le;
  }

  /** A timestamp that is parsed and packed again keeps its 16 bytes. */
  lemma ParsedTimeInverse(b: Bytes16)
    ensures TimeBlob(ParseTime(b)) == b
  {
    FromLeInverse(b[0..2]); FromLeInverse(b[8..12]); FromLeInverse(b[12..14]);
    assert b == b[0..2] + [b[2]] + [b[3]] + [b[4]] + [b[5]] + [b[6]] + [b[7]]
                + b[8..12] + b[12..14] + [b[14]] + [b[15]];
  }

  lemma TimeInverse(t: EfiTime)
    ensures ParseTime(TimeBlob(t)) == t
  {
    var b := TimeBlob(t);
    Limits();
    LeInverse(t.year, 2); LeInverse(t.nanosecond, 4); LeInverse(t.timezone, 2);
    assert b[0..2] == Le(t.year, 2) && b[8..12] == Le(t.nanosecond, 4) && b[12..14] == Le(t.timezone, 2);
  }
}
