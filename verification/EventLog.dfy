/** The TD event log: BinaryBlob, the record parsers and TDEventLogActor.process as functions of the
    log bytes, and the format they invert (section 10.2 of the TCG PC Client Platform Firmware
    Profile 1.05). */
module EventLog {
  import opened Outcomes
  import opened Bytes

  const EV_NO_ACTION := 3
  const LOG_END := 0xFFFF_FFFF

  // ---- BinaryBlob ----

  datatype Read<+T> = Read(value: T, pos: nat)

  /** get_uint8, get_uint16 and get_uint32 */
  function GetUint(data: Blob, pos: nat, width: nat): Result<Read<nat>> {
    if pos + width <= |data| then Success(Read(FromLe(data[pos..pos + width]), pos + width))
    else Failure(AssertionError)
  }

  /** get_bytes; for a count of 0 it returns None, which its callers cannot unpack. */
  function GetBytes(data: Blob, pos: nat, count: nat): Result<Read<Blob>> {
    if count == 0 then Failure(TypeError)
    else if pos + count <= |data| then Success(Read(data[pos..pos + count], pos + count))
    else Failure(AssertionError)
  }

  // ---- the Spec ID header ----

  datatype SpecIdHeader = SpecIdHeader(
    address: nat, rtmr: int, etype: nat, digestCount: nat, algorithms: nat,
    digestSizes: map<nat, nat>, length: nat, raw: Blob)

  /** A header object with what was parsed before an error, if there was one. */
  datatype HeaderParse = HeaderParse(header: SpecIdHeader, error: Option<Error>)

  function BlankHeader(address: nat): SpecIdHeader {
    SpecIdHeader(address, 0, 0, 0, 0, map[], 0, [])
  }

  datatype SizesParse = SizesParse(sizes: map<nat, nat>, pos: nat, ok: bool)

  /** The loop over algorithm identifiers and digest sizes. */
  function ParseSizes(data: Blob, pos: nat, n: nat, sizes: map<nat, nat>): (p: SizesParse)
    ensures p.ok ==> p.pos == pos + 4 * n
    decreases n
  {
    if n == 0 then SizesParse(sizes, pos, true)
    else if pos + 4 > |data| then SizesParse(sizes, pos, false)
    else ParseSizes(data, pos + 4, n - 1, sizes[FromLe(data[pos..pos + 2]) := FromLe(data[pos + 2..pos + 4])])
  }

  /** TDEventLogSpecIdHeader.parse */
  function ParseSpecId(data: Blob, address: nat): (p: HeaderParse)
    ensures p.error.None? ==> p.header.length > 60 && p.header.address == address
    ensures p.error.None? ==> p.header.raw == Slice(data, 0, p.header.length)
  {
    var h0 := BlankHeader(address);
    if |data| < 8 then HeaderParse(h0, Some(AssertionError))
    else
      var h1 := h0.(etype := FromLe(data[4..8]));
      if |data| < 12 then HeaderParse(h1, Some(AssertionError))
      else
        var h2 := h1.(digestCount := FromLe(data[8..12]), rtmr := FromLe(data[0..4]) - 1);
        if |data| < 60 then HeaderParse(h2, Some(AssertionError))
        else
          var n := FromLe(data[56..60]);
          var p := ParseSizes(data, 60, n, map[]);
          var h3 := h2.(algorithms := n, digestSizes := p.sizes);
          if !p.ok || p.pos >= |data| then HeaderParse(h3, Some(AssertionError))
          else
            var index := p.pos + 1 + data[p.pos];
            HeaderParse(h3.(length := index, raw := Slice(data, 0, index)), None)
  }

  // ---- log entries ----

  datatype Entry = Entry(
    address: nat, rtmr: int, etype: nat, digestCount: nat, digests: seq<Blob>, algorithm: nat,
    eventSize: nat, event: Blob, length: nat, raw: Blob)

  datatype Digests = Digests(digests: seq<Blob>, algorithm: nat, pos: nat)

  /** The loop over the digests of an entry. */
  function ParseDigests(data: Blob, pos: nat, n: nat, header: Option<SpecIdHeader>, algorithm: nat)
    : (r: Result<Digests>)
    ensures r.Success? ==> pos <= r.value.pos && |r.value.digests| == n
    decreases n
  {
    if n == 0 then Success(Digests([], algorithm, pos))
    else
      var a :- GetUint(data, pos, 2);
      if header.None? then Failure(MissingAttribute)
      else if a.value !in header.value.digestSizes then Failure(AssertionError)
      else
        var d :- GetBytes(data, a.pos, header.value.digestSizes[a.value]);
        var rest :- ParseDigests(data, d.pos, n - 1, header, a.value);
        Success(Digests([d.value] + rest.digests, rest.algorithm, rest.pos))
  }

  /** TDEventLogEntry.parse */
  function ParseEntry(data: Blob, address: nat, header: Option<SpecIdHeader>): (r: Result<Entry>)
    ensures r.Success? ==> 16 < r.value.length <= |data| && r.value.raw == data[..r.value.length]
    ensures r.Success? ==> r.value.address == address
  {
    var reg :- GetUint(data, 0, 4);
    var etype :- GetUint(data, 4, 4);
    var count :- GetUint(data, 8, 4);
    var ds :- ParseDigests(data, 12, count.value, header, 0);
    var size :- GetUint(data, ds.pos, 4);
    var event :- GetBytes(data, size.pos, size.value);
    Success(Entry(address, reg.value - 1, etype.value, count.value, ds.digests, ds.algorithm,
                  size.value, event.value, event.pos, data[..event.pos]))
  }

  // ---- what an exception leaves in an entry ----

  function BlankEntry(address: nat): Entry { Entry(address, 0, 0, 0, [], 0, 0, [], 0, []) }

  datatype Leftover = Leftover(digests: seq<Blob>, algorithm: nat)

  /** The digests and the algorithm that the loop leaves, whether it ends or raises. */
  function DigestsLeft(data: Blob, pos: nat, n: nat, header: Option<SpecIdHeader>, algorithm: nat): Leftover
    decreases n
  {
    if n == 0 || pos + 2 > |data| then Leftover([], algorithm)
    else
      var a := FromLe(data[pos..pos + 2]);
      if header.None? || a !in header.value.digestSizes then Leftover([], algorithm)
      else
        match GetBytes(data, pos + 2, header.value.digestSizes[a])
        case Failure(_) => Leftover([], a)
        case Success(d) =>
          var rest := DigestsLeft(data, d.pos, n - 1, header, a);
          Leftover([d.value] + rest.digests, rest.algorithm)
  }

  /** The fields of an entry whose parse raises. */
  function EntryLeft(data: Blob, address: nat, header: Option<SpecIdHeader>): Entry {
    if |data| < 8 then BlankEntry(address)
    else
      var e1 := BlankEntry(address).(etype := FromLe(data[4..8]));
      if |data| < 12 then e1
      else
        var n := FromLe(data[8..12]);
        var left := DigestsLeft(data, 12, n, header, 0);
        var e2 := e1.(digestCount := n, rtmr := FromLe(data[0..4]) - 1, digests := left.digests,
                      algorithm := left.algorithm);
        match ParseDigests(data, 12, n, header, 0)
        case Failure(_) => e2
        case Success(ds) => if ds.pos + 4 > |data| then e2 else e2.(eventSize := FromLe(data[ds.pos..ds.pos + 4]))
  }

  // ---- the loop of process ----

  datatype Record = HeaderRecord(header: SpecIdHeader) | EventRecord(entry: Entry) {
    function Length(): nat { if HeaderRecord? then header.length else entry.length }
    function Address(): nat { if HeaderRecord? then header.address else entry.address }
    function Raw(): Blob { if HeaderRecord? then header.raw else entry.raw }
  }

  /** What a run of the loop leaves: the records parsed, where it stopped, the header field, and
      the exception that ended it, if any. */
  datatype Run = Run(records: seq<Record>, end: nat, header: Option<SpecIdHeader>, error: Option<Error>)

  /** What one turn of the loop does: halt, leaving a header field and perhaps an exception, or
      parse a record. */
  datatype Turn = Halt(header: Option<SpecIdHeader>, error: Option<Error>) | Got(record: Record)

  function TurnAt(data: Blob, base: nat, length: nat, index: nat, header: Option<SpecIdHeader>): (t: Turn)
    ensures t.Got? ==> index < length && index + 8 <= |data| && t.record.Length() > 0
  {
    if index >= length then Halt(header, None)
    else if index + 8 > |data| then Halt(header, Some(AssertionError))
    else if FromLe(data[index..index + 4]) == LOG_END then Halt(header, None)
    else if FromLe(data[index + 4..index + 8]) == EV_NO_ACTION then
      var p := ParseSpecId(data[index..], base + index);
      if p.error.Some? then Halt(Some(p.header), p.error) else Got(HeaderRecord(p.header))
    else
      match ParseEntry(data[index..], base + index, header)
      case Failure(e) => Halt(header, Some(e))
      case Success(entry) => Got(EventRecord(entry))
  }

  /** The header field after a record. */
  function After(record: Record, header: Option<SpecIdHeader>): Option<SpecIdHeader> {
    if record.HeaderRecord? then Some(record.header) else header
  }

  function ProcessFrom(data: Blob, base: nat, length: nat, index: nat, header: Option<SpecIdHeader>): Run
    decreases if index < length then length - index else 0
  {
    match TurnAt(data, base, length, index, header)
    case Halt(h, e) => Run([], index, h, e)
    case Got(record) =>
      var r := ProcessFrom(data, base, length, index + record.Length(), After(record, header));
      r.(records := [record] + r.records)
  }

  /** The entries among the records, in order. */
  function Events(rs: seq<Record>): seq<Entry> {
    if rs == [] then []
    else (if rs[0].EventRecord? then [rs[0].entry] else []) + Events(rs[1..])
  }

  // ---- the format ----

  datatype Algorithm = Algorithm(id: U16, size: U16)

  /** A Spec ID event record. */
  datatype SpecId = SpecId(
    reg: U32, digest: Blob, eventSize: U32, ident: Blob, algorithms: seq<Algorithm>, vendor: Blob)

  predicate ValidSpecId(s: SpecId) {
    s.reg != LOG_END && |s.digest| == 20 && |s.ident| == 24 && |s.algorithms| < 0x1_0000_0000 && |s.vendor| < 256
  }

  function EncodeAlgorithms(a: seq<Algorithm>): (r: Blob)
    ensures |r| == 4 * |a|
  {
    if a == [] then [] else Le(a[0].id, 2) + Le(a[0].size, 2) + EncodeAlgorithms(a[1..])
  }

  /** The fixed 60 bytes of a Spec ID record. */
  function SpecIdFixed(s: SpecId): (r: Blob)
    requires ValidSpecId(s)
    ensures |r| == 60
  {
    Le(s.reg, 4) + Le(EV_NO_ACTION, 4) + s.digest + Le(s.eventSize, 4) + s.ident + Le(|s.algorithms|, 4)
  }

  function EncodeSpecId(s: SpecId): Blob
    requires ValidSpecId(s)
  {
    SpecIdFixed(s) + EncodeAlgorithms(s.algorithms) + [|s.vendor|] + s.vendor
  }

  /** The dictionary filled from the algorithms: a repeated identifier keeps its last size. */
  function SizesOf(a: seq<Algorithm>, sizes: map<nat, nat>): map<nat, nat>
    decreases |a|
  {
    if a == [] then sizes else SizesOf(a[1..], sizes[a[0].id := a[0].size])
  }

  datatype Digest = Digest(algorithm: U16, bytes: Blob)

  /** A measured event record. */
  datatype LogEvent = LogEvent(reg: U32, etype: U32, digests: seq<Digest>, event: Blob)

  function EncodeDigests(ds: seq<Digest>): Blob {
    if ds == [] then [] else Le(ds[0].algorithm, 2) + ds[0].bytes + EncodeDigests(ds[1..])
  }

  function EventFixed(e: LogEvent): (r: Blob)
    ensures |r| == 12
  {
    Le(e.reg, 4) + Le(e.etype, 4) + Le(|e.digests|, 4)
  }

  function EncodeEvent(e: LogEvent): Blob {
    EventFixed(e) + EncodeDigests(e.digests) + Le(|e.event|, 4) + e.event
  }

  /** The digests have the sizes announced by the header. */
  predicate DigestsMatch(ds: seq<Digest>, sizes: map<nat, nat>) {
    forall i :: 0 <= i < |ds| ==> ds[i].algorithm in sizes && sizes[ds[i].algorithm] == |ds[i].bytes|
  }

  /** No digest is empty. */
  predicate DigestsPresent(ds: seq<Digest>) {
    forall i :: 0 <= i < |ds| ==> ds[i].bytes != []
  }

  /** A record of the format that belongs to a header with the given sizes. */
  predicate ValidEvent(e: LogEvent, sizes: map<nat, nat>) {
    e.reg != LOG_END && e.etype != EV_NO_ACTION && DigestsMatch(e.digests, sizes)
    && |e.digests| < 0x1_0000_0000 && |e.event| < 0x1_0000_0000
  }

  /** What parsing must recover. */
  function DigestBytes(ds: seq<Digest>): (r: seq<Blob>)
    ensures |r| == |ds|
  {
    if ds == [] then [] else [ds[0].bytes] + DigestBytes(ds[1..])
  }

  function LastAlgorithm(ds: seq<Digest>, before: nat): nat {
    if ds == [] then before else ds[|ds| - 1].algorithm
  }

  function HeaderOf(s: SpecId, address: nat): SpecIdHeader
    requires ValidSpecId(s)
  {
    SpecIdHeader(address, s.reg - 1, EV_NO_ACTION, FromLe(s.digest[..4]), |s.algorithms|,
                 SizesOf(s.algorithms, map[]), |EncodeSpecId(s)|, EncodeSpecId(s))
  }

  function EntryOf(e: LogEvent, address: nat): Entry {
    Entry(address, e.reg - 1, e.etype, |e.digests|, DigestBytes(e.digests), LastAlgorithm(e.digests, 0),
          |e.event|, e.event, |EncodeEvent(e)|, EncodeEvent(e))
  }

  // ---- the parsers invert the format ----

  lemma ReadField(data: Blob, prefix: Blob, field: Blob, rest: Blob)
    requires data == prefix + field + rest
    ensures data[|prefix|..|prefix| + |field|] == field
  {
  }

  lemma ReadUint(data: Blob, prefix: Blob, n: nat, w: nat, rest: Blob)
    requires n < Limit(w) && data == prefix + Le(n, w) + rest
    ensures GetUint(data, |prefix|, w) == Success(Read(n, |prefix| + w))
  {
    hide Le, FromLe, Limit;
    ReadField(data, prefix, Le(n, w), rest);
    LeInverse(n, w);
  }

  lemma {:induction false} SizesInverse(data: Blob, prefix: Blob, a: seq<Algorithm>, rest: Blob, sizes: map<nat, nat>)
    requires data == prefix + EncodeAlgorithms(a) + rest
    ensures ParseSizes(data, |prefix|, |a|, sizes) == SizesParse(SizesOf(a, sizes), |prefix| + 4 * |a|, true)
    decreases |a|
  {
    if a != [] {
      hide Le, FromLe;
      var id, size, more := Le(a[0].id, 2), Le(a[0].size, 2), EncodeAlgorithms(a[1..]);
      Limits();
      LeInverse(a[0].id, 2);
      LeInverse(a[0].size, 2);
      assert data == prefix + id + (size + more + rest);
      ReadField(data, prefix, id, size + more + rest);
      assert data == (prefix + id) + size + (more + rest);
      ReadField(data, prefix + id, size, more + rest);
      assert data == (prefix + id + size) + more + rest;
      SizesInverse(data, prefix + id + size, a[1..], rest, sizes[a[0].id := a[0].size]);
    } else {
      assert EncodeAlgorithms(a) == [];
    }
  }

  lemma FixedFields(s: SpecId)
    requires ValidSpecId(s)
    ensures var h := SpecIdFixed(s);
      h[0..4] == Le(s.reg, 4) && h[4..8] == Le(EV_NO_ACTION, 4) && h[8..12] == s.digest[..4]
      && h[56..60] == Le(|s.algorithms|, 4)
  {
    hide Le;
  }

  /** Parsing an encoded Spec ID record recovers it, whatever follows. */
  lemma SpecIdInverse(s: SpecId, rest: Blob, address: nat)
    requires ValidSpecId(s)
    ensures ParseSpecId(EncodeSpecId(s) + rest, address) == HeaderParse(HeaderOf(s, address), None)
  {
    hide Le, FromLe, ParseSizes, SizesOf, EncodeAlgorithms, SpecIdFixed;
    var fixed, algos := SpecIdFixed(s), EncodeAlgorithms(s.algorithms);
    var data := EncodeSpecId(s) + rest;
    FixedFields(s);
    assert data[..60] == fixed;
    assert data[0..4] == fixed[0..4] && data[4..8] == fixed[4..8] && data[8..12] == fixed[8..12];
    assert data[56..60] == fixed[56..60];
    FourBytes(s.reg); FourBytes(EV_NO_ACTION); FourBytes(|s.algorithms|);
    assert data == fixed + algos + ([|s.vendor|] + s.vendor + rest);
    SizesInverse(data, fixed, s.algorithms, [|s.vendor|] + s.vendor + rest, map[]);
    var pos := 60 + 4 * |s.algorithms|;
    assert data[pos] == |s.vendor|;
    assert data[..|EncodeSpecId(s)|] == EncodeSpecId(s);
  }

  lemma {:induction false} SizesTruncated(
    data: Blob, prefix: Blob, a: seq<Algorithm>, n: nat, cut: Blob, sizes: map<nat, nat>)
    requires data == prefix + EncodeAlgorithms(a) + cut && |cut| < 4 && n > |a|
    ensures ParseSizes(data, |prefix|, n, sizes) == SizesParse(SizesOf(a, sizes), |prefix| + 4 * |a|, false)
    decreases |a|
  {
    if a != [] {
      hide Le, FromLe;
      var id, size, more := Le(a[0].id, 2), Le(a[0].size, 2), EncodeAlgorithms(a[1..]);
      Limits();
      LeInverse(a[0].id, 2);
      LeInverse(a[0].size, 2);
      assert data == prefix + id + (size + more + cut);
      ReadField(data, prefix, id, size + more + cut);
      assert data == (prefix + id) + size + (more + cut);
      ReadField(data, prefix + id, size, more + cut);
      assert data == (prefix + id + size) + more + cut;
      SizesTruncated(data, prefix + id + size, a[1..], n - 1, cut, sizes[a[0].id := a[0].size]);
    } else {
      assert EncodeAlgorithms(a) == [];
    }
  }

  /** A Spec ID record that breaks off in or behind its algorithms raises and leaves the sizes read so far. */
  lemma TruncatedAlgorithms(s: SpecId, k: nat, cut: Blob, address: nat)
    requires ValidSpecId(s) && k <= |s.algorithms| && |cut| < 4 && (k == |s.algorithms| ==> cut == [])
    ensures ParseSpecId(SpecIdFixed(s) + EncodeAlgorithms(s.algorithms[..k]) + cut, address)
         == HeaderParse(SpecIdHeader(address, s.reg - 1, 3, FromLe(s.digest[..4]), |s.algorithms|,
                                     SizesOf(s.algorithms[..k], map[]), 0, []), Some(AssertionError))
  {
    hide Le, FromLe, ParseSizes, SizesOf, EncodeAlgorithms, SpecIdFixed;
    var fixed, n := SpecIdFixed(s), |s.algorithms|;
    var algos := EncodeAlgorithms(s.algorithms[..k]);
    var data := fixed + algos + cut;
    FixedFields(s);
    assert data[..60] == fixed;
    assert data[0..4] == fixed[0..4] && data[4..8] == fixed[4..8] && data[8..12] == fixed[8..12];
    assert data[56..60] == fixed[56..60];
    FourBytes(s.reg); FourBytes(EV_NO_ACTION); FourBytes(n);
    if k < n {
      SizesTruncated(data, fixed, s.algorithms[..k], n, cut, map[]);
    } else {
      SizesInverse(data, fixed, s.algorithms[..k], cut, map[]);
      AlgorithmsLength(s.algorithms[..k]);
    }
  }

  lemma {:induction false} AlgorithmsLength(a: seq<Algorithm>)
    ensures |EncodeAlgorithms(a)| == 4 * |a|
    decreases |a|
  {
    if a != [] { AlgorithmsLength(a[1..]); }
  }

  /** One that breaks off in its fixed part raises and leaves the fields read so far. */
  lemma TruncatedFixed(s: SpecId, n: nat, address: nat)
    requires ValidSpecId(s) && n < 60
    ensures ParseSpecId(SpecIdFixed(s)[..n], address)
         == HeaderParse(if n < 8 then BlankHeader(address)
                        else if n < 12 then BlankHeader(address).(etype := 3)
                        else BlankHeader(address).(etype := 3, rtmr := s.reg - 1, digestCount := FromLe(s.digest[..4])),
                        Some(AssertionError))
  {
    hide Le, FromLe, ParseSizes, SpecIdFixed;
    var fixed, data := SpecIdFixed(s), SpecIdFixed(s)[..n];
    FixedFields(s);
    FourBytes(s.reg); FourBytes(EV_NO_ACTION);
    if n >= 8 { assert data[0..4] == fixed[0..4] && data[4..8] == fixed[4..8]; }
    if n >= 12 { assert data[8..12] == fixed[8..12]; }
  }

  lemma FourBytes(n: U32)
    ensures FromLe(Le(n, 4)) == n
  {
    Limits();
    LeInverse(n, 4);
  }

  lemma ReadBytes(data: Blob, prefix: Blob, field: Blob, rest: Blob)
    requires data == prefix + field + rest
    ensures GetBytes(data, |prefix|, |field|)
         == if field == [] then Failure(TypeError) else Success(Read(field, |prefix| + |field|))
  {
    ReadField(data, prefix, field, rest);
  }

  lemma FirstDigest(ds: seq<Digest>, algorithm: nat)
    requires ds != []
    ensures DigestsPresent(ds) <==> ds[0].bytes != [] && DigestsPresent(ds[1..])
    ensures LastAlgorithm(ds, algorithm) == LastAlgorithm(ds[1..], ds[0].algorithm)
  {
    assert forall i :: 1 <= i < |ds| ==> ds[i] == ds[1..][i - 1];
  }

  /** Parsing encoded digests recovers their bytes, unless one of them is empty. */
  lemma {:induction false} DigestsInverse(data: Blob, prefix: Blob, ds: seq<Digest>, rest: Blob,
                                          header: SpecIdHeader, algorithm: nat)
    requires data == prefix + EncodeDigests(ds) + rest && DigestsMatch(ds, header.digestSizes)
    ensures ParseDigests(data, |prefix|, |ds|, Some(header), algorithm)
         == if DigestsPresent(ds)
            then Success(Digests(DigestBytes(ds), LastAlgorithm(ds, algorithm), |prefix| + |EncodeDigests(ds)|))
            else Failure(TypeError)
    decreases |ds|
  {
    hide Le, FromLe, GetUint, GetBytes, LastAlgorithm;
    if ds != [] {
      var d, more := ds[0], EncodeDigests(ds[1..]);
      var id := Le(d.algorithm, 2);
      Limits();
      assert data == prefix + id + (d.bytes + more + rest);
      ReadUint(data, prefix, d.algorithm, 2, d.bytes + more + rest);
      assert data == (prefix + id) + d.bytes + (more + rest);
      ReadBytes(data, prefix + id, d.bytes, more + rest);
      assert data == (prefix + id + d.bytes) + more + rest;
      FirstDigest(ds, algorithm);
      hide DigestsPresent;
      DigestsInverse(data, prefix + id + d.bytes, ds[1..], rest, header, d.algorithm);
    } else {
      NoDigests(algorithm);
    }
  }

  lemma NoDigests(algorithm: nat)
    ensures LastAlgorithm([], algorithm) == algorithm
  {
  }

  lemma EventHead(e: LogEvent, data: Blob, rest: Blob)
    requires data == EventFixed(e) + rest && |e.digests| < 0x1_0000_0000
    ensures GetUint(data, 0, 4) == Success(Read(e.reg, 4)) && GetUint(data, 4, 4) == Success(Read(e.etype, 8))
    ensures GetUint(data, 8, 4) == Success(Read(|e.digests|, 12))
  {
    hide Le, GetUint;
    var a, b, c := Le(e.reg, 4), Le(e.etype, 4), Le(|e.digests|, 4);
    Limits();
    assert data == [] + a + (b + c + rest);
    ReadUint(data, [], e.reg, 4, b + c + rest);
    assert data == a + b + (c + rest);
    ReadUint(data, a, e.etype, 4, c + rest);
    assert data == (a + b) + c + rest;
    ReadUint(data, a + b, |e.digests|, 4, rest);
  }

  lemma EventPayload(data: Blob, front: Blob, event: Blob, rest: Blob)
    requires data == front + Le(|event|, 4) + event + rest && |event| < 0x1_0000_0000
    ensures GetUint(data, |front|, 4) == Success(Read(|event|, |front| + 4))
    ensures GetBytes(data, |front| + 4, |event|)
         == if event == [] then Failure(TypeError) else Success(Read(event, |front| + 4 + |event|))
  {
    hide Le, GetUint, GetBytes;
    var size := Le(|event|, 4);
    Limits();
    assert data == front + size + (event + rest);
    ReadUint(data, front, |event|, 4, event + rest);
    assert data == (front + size) + event + rest;
    ReadBytes(data, front + size, event, rest);
  }

  /** Parsing an encoded event recovers it if and only if its payload and its digests are nonempty:
      empty ones make get_bytes return None. */
  lemma EventInverse(e: LogEvent, rest: Blob, header: SpecIdHeader, address: nat)
    requires ValidEvent(e, header.digestSizes)
    ensures ParseEntry(EncodeEvent(e) + rest, address, Some(header))
         == if e.event != [] && DigestsPresent(e.digests) then Success(EntryOf(e, address)) else Failure(TypeError)
  {
    hide Le, GetUint, GetBytes, EventFixed, ParseDigests, EncodeDigests, DigestsMatch, DigestsPresent,
      DigestBytes, LastAlgorithm;
    var fixed, ds, size := EventFixed(e), EncodeDigests(e.digests), Le(|e.event|, 4);
    var data := EncodeEvent(e) + rest;
    assert data == fixed + (ds + size + e.event + rest);
    EventHead(e, data, ds + size + e.event + rest);
    assert data == fixed + ds + (size + e.event + rest);
    DigestsInverse(data, fixed, e.digests, size + e.event + rest, header, 0);
    assert data == (fixed + ds) + size + e.event + rest;
    EventPayload(data, fixed + ds, e.event, rest);
    assert data[..|EncodeEvent(e)|] == EncodeEvent(e);
  }
}
