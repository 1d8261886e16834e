/** Whole logs: parsing inverts the format, the parsed records tile the log, and when the addresses
    printed by dump_td_event_logs are the true ones. */
module LogRun {
  import opened Outcomes
  import opened Bytes
  import opened EventLog

  // ---- the parser inverts a whole log ----

  function EncodeEvents(es: seq<LogEvent>): Blob {
    if es == [] then [] else EncodeEvent(es[0]) + EncodeEvents(es[1..])
  }

  /** The entries that parsing must give for events encoded from an address on. */
  function EntriesOf(es: seq<LogEvent>, address: nat): seq<Entry> {
    if es == [] then [] else [EntryOf(es[0], address)] + EntriesOf(es[1..], address + |EncodeEvent(es[0])|)
  }

  function AsRecords(entries: seq<Entry>): seq<Record> {
    if entries == [] then [] else [EventRecord(entries[0])] + AsRecords(entries[1..])
  }

  function Parsed(es: seq<LogEvent>, address: nat): seq<Record> { AsRecords(EntriesOf(es, address)) }

  lemma ParsedCons(es: seq<LogEvent>, address: nat)
    requires es != []
    ensures Parsed(es, address)
         == [EventRecord(EntryOf(es[0], address))] + Parsed(es[1..], address + |EncodeEvent(es[0])|)
  {
    hide EntryOf, EncodeEvent;
    var rest := EntriesOf(es[1..], address + |EncodeEvent(es[0])|);
    assert ([EntryOf(es[0], address)] + rest)[1..] == rest;
  }

  predicate AllValid(es: seq<LogEvent>, sizes: map<nat, nat>) {
    forall i :: 0 <= i < |es| ==> ValidEvent(es[i], sizes)
  }

  /** No event has an empty payload or an empty digest. */
  predicate AllPresent(es: seq<LogEvent>) {
    forall i :: 0 <= i < |es| ==> es[i].event != [] && DigestsPresent(es[i].digests)
  }

  /** The log ends after n bytes: by its length, or by a record with register 0xFFFFFFFF. */
  predicate Ended(tail: Blob, n: nat, length: nat) {
    n == length || (n < length && |tail| >= 8 && FromLe(tail[..4]) == LOG_END)
  }

  /** Four bytes 0xFF end the log, and a Spec ID record has type 3 behind its register. */
  lemma FormatConstants(s: SpecId, tail: Blob, n: nat, length: nat)
    requires ValidSpecId(s)
    ensures n < length && |tail| >= 8 && tail[..4] == [0xff, 0xff, 0xff, 0xff] ==> Ended(tail, n, length)
    ensures n < length && Ended(tail, n, length) ==> |tail| >= 8 && tail[..4] == [0xff, 0xff, 0xff, 0xff]
    ensures |EncodeSpecId(s)| > 60 && EncodeSpecId(s)[4..8] == [3, 0, 0, 0]
  {
    AllOnes();
    if |tail| >= 8 { FromLeInverse(tail[..4]); }
    SmallLe(3);
    hide Le, FromLe;
    assert EncodeSpecId(s)[4..8] == SpecIdFixed(s)[4..8] == Le(3, 4);
  }

  lemma AllOnes()
    ensures Le(0xFFFF_FFFF, 4) == [0xff, 0xff, 0xff, 0xff] && FromLe([0xff, 0xff, 0xff, 0xff]) == 0xFFFF_FFFF
  {
    ByteOrder(0xFFFF_FFFF, 4); ByteOrder(0xFF_FFFF, 3); ByteOrder(0xFFFF, 2); ByteOrder(0xFF, 1);
    Limits();
    LeInverse(0xFFFF_FFFF, 4);
    assert Le(0xFFFF_FFFF, 4) == [0xff] + Le(0xFF_FFFF, 3);
    assert Le(0xFF_FFFF, 3) == [0xff] + Le(0xFFFF, 2);
    assert Le(0xFFFF, 2) == [0xff] + Le(0xFF, 1);
  }

  lemma EventStart(e: LogEvent, data: Blob, prefix: Blob, rest: Blob)
    requires data == prefix + EncodeEvent(e) + rest
    ensures |EncodeEvent(e)| >= 16
    ensures FromLe(data[|prefix|..|prefix| + 4]) == e.reg
    ensures FromLe(data[|prefix| + 4..|prefix| + 8]) == e.etype
    ensures data[|prefix|..] == EncodeEvent(e) + rest
  {
    hide Le, FromLe, EncodeDigests;
    var a, b := Le(e.reg, 4), Le(e.etype, 4);
    var more := Le(|e.digests|, 4) + EncodeDigests(e.digests) + Le(|e.event|, 4) + e.event + rest;
    assert data == prefix + a + (b + more);
    ReadField(data, prefix, a, b + more);
    assert data == (prefix + a) + b + more;
    ReadField(data, prefix + a, b, more);
    FourBytes(e.reg);
    FourBytes(e.etype);
  }

  lemma LogStops(data: Blob, prefix: Blob, tail: Blob, header: Option<SpecIdHeader>, base: nat, length: nat)
    requires data == prefix + tail && Ended(tail, |prefix|, length)
    ensures ProcessFrom(data, base, length, |prefix|, header) == Run([], |prefix|, header, None)
  {
    hide FromLe, ParseSpecId, ParseEntry;
    if |prefix| < length {
      assert data[|prefix|..|prefix| + 4] == tail[..4];
    }
  }

  /** One turn of the loop on an event record. */
  lemma EventTurn(e: LogEvent, data: Blob, prefix: Blob, rest: Blob, header: SpecIdHeader, base: nat, length: nat)
    requires data == prefix + EncodeEvent(e) + rest && |prefix| < length
    requires ValidEvent(e, header.digestSizes)
    ensures var r := ProcessFrom(data, base, length, |prefix|, Some(header));
      if e.event != [] && DigestsPresent(e.digests) then
        var more := ProcessFrom(data, base, length, |prefix| + |EncodeEvent(e)|, Some(header));
        r == more.(records := [EventRecord(EntryOf(e, base + |prefix|))] + more.records)
      else r.error == Some(TypeError)
  {
    hide FromLe, ParseEntry, ParseSpecId, EncodeEvent, DigestsPresent;
    EventStart(e, data, prefix, rest);
    EventInverse(e, rest, header, base + |prefix|);
  }

  /** Events encoded back to back are recovered exactly, or the first unparsable one raises. */
  lemma {:induction false} EventsInverse(data: Blob, prefix: Blob, es: seq<LogEvent>, tail: Blob,
                                         header: SpecIdHeader, base: nat, length: nat)
    requires data == prefix + EncodeEvents(es) + tail && AllValid(es, header.digestSizes)
    requires Ended(tail, |prefix| + |EncodeEvents(es)|, length)
    ensures var r := ProcessFrom(data, base, length, |prefix|, Some(header));
      if AllPresent(es) then
        r == Run(Parsed(es, base + |prefix|), |prefix| + |EncodeEvents(es)|, Some(header), None)
      else r.error == Some(TypeError)
    decreases |es|
  {
    hide EncodeEvent, ProcessFrom, ValidEvent, DigestsPresent, EntryOf, FromLe, AsRecords;
    if es == [] {
      NothingParsed(base + |prefix|);
      assert data == prefix + tail;
      LogStops(data, prefix, tail, Some(header), base, length);
    } else {
      var e, more := es[0], EncodeEvents(es[1..]);
      assert data == prefix + EncodeEvent(e) + (more + tail);
      EventStart(e, data, prefix, more + tail);
      ParsedCons(es, base + |prefix|);
      EventTurn(e, data, prefix, more + tail, header, base, length);
      assert data == (prefix + EncodeEvent(e)) + more + tail;
      EventsInverse(data, prefix + EncodeEvent(e), es[1..], tail, header, base, length);
      assert AllPresent(es) <==> e.event != [] && DigestsPresent(e.digests) && AllPresent(es[1..]) by {
        assert forall i :: 1 <= i < |es| ==> es[i] == es[1..][i - 1];
      }
    }
  }

  lemma NothingParsed(address: nat)
    ensures Parsed([], address) == []
  {
  }

  lemma SpecIdStart(s: SpecId, rest: Blob)
    requires ValidSpecId(s)
    ensures var data := EncodeSpecId(s) + rest;
      |EncodeSpecId(s)| > 60 && FromLe(data[0..4]) == s.reg && FromLe(data[4..8]) == EV_NO_ACTION
  {
    hide Le, FromLe, SpecIdFixed, EncodeAlgorithms;
    FixedFields(s);
    var data, fixed := EncodeSpecId(s) + rest, SpecIdFixed(s);
    assert data[0..4] == fixed[0..4] && data[4..8] == fixed[4..8];
    FourBytes(s.reg);
    FourBytes(EV_NO_ACTION);
  }

  /** Log inverse: for every Spec ID record and every list of valid events encoded back to back and
      properly ended, process recovers exactly the header and the events, with their addresses, if
      no payload or digest is empty, and raises otherwise. */
  lemma LogInverse(s: SpecId, es: seq<LogEvent>, tail: Blob, base: nat, length: nat)
    requires ValidSpecId(s) && AllValid(es, SizesOf(s.algorithms, map[]))
    requires Ended(tail, |EncodeSpecId(s)| + |EncodeEvents(es)|, length)
    ensures var r := ProcessFrom(EncodeSpecId(s) + EncodeEvents(es) + tail, base, length, 0, None);
      var n := |EncodeSpecId(s)|;
      if AllPresent(es) then
        r == Run([HeaderRecord(HeaderOf(s, base))] + Parsed(es, base + n), n + |EncodeEvents(es)|,
                 Some(HeaderOf(s, base)), None)
      else r.error == Some(TypeError)
  {
    hide FromLe, ParseSpecId, ParseEntry, EncodeSpecId, EncodeEvents, AllPresent, AllValid, SizesOf;
    var first, rest := EncodeSpecId(s), EncodeEvents(es) + tail;
    var data := first + EncodeEvents(es) + tail;
    assert data == first + rest;
    assert data[0..] == data;
    SpecIdStart(s, rest);
    SpecIdInverse(s, rest, base);
    EventsInverse(data, first, es, tail, HeaderOf(s, base), base, length);
  }

  // ---- tiling ----

  function TotalLength(rs: seq<Record>): nat {
    if rs == [] then 0 else rs[0].Length() + TotalLength(rs[1..])
  }

  function RawAll(rs: seq<Record>): Blob {
    if rs == [] then [] else rs[0].Raw() + RawAll(rs[1..])
  }

  /** Each record starts where the previous one ends. */
  predicate Contiguous(rs: seq<Record>, address: nat) {
    rs == [] || (
      rs[0].Address() == address && rs[0].Length() > 0 && Contiguous(rs[1..], address + rs[0].Length()))
  }

  function LastHeader(rs: seq<Record>, before: Option<SpecIdHeader>): Option<SpecIdHeader> {
    if rs == [] then before
    else LastHeader(rs[1..], After(rs[0], before))
  }

  /** A record parsed at index lies there and holds the bytes of the log. */
  lemma TurnTiles(data: Blob, base: nat, length: nat, index: nat, header: Option<SpecIdHeader>)
    requires TurnAt(data, base, length, index, header).Got?
    ensures var rec := TurnAt(data, base, length, index, header).record;
      rec.Address() == base + index && rec.Raw() == Slice(data, index, index + rec.Length())
  {
    hide FromLe, ParseSpecId, ParseEntry;
    var rest := data[index..];
    if FromLe(data[index + 4..index + 8]) == EV_NO_ACTION {
      var h := ParseSpecId(rest, base + index).header;
      assert Slice(rest, 0, h.length) == Slice(data, index, index + h.length);
    } else {
      var e := ParseEntry(rest, base + index, header).value;
      assert rest[..e.length] == Slice(data, index, index + e.length);
    }
  }

  lemma HaltKeepsHeader(data: Blob, base: nat, length: nat, index: nat, header: Option<SpecIdHeader>)
    ensures var t := TurnAt(data, base, length, index, header);
      (t.Halt? && t.error.None? ==> t.header == header) && (index > |data| ==> t.Halt?)
  {
    hide FromLe, ParseSpecId, ParseEntry;
  }

  lemma SliceConcat(data: Blob, lo: nat, mid: nat, hi: nat)
    requires lo <= mid <= hi
    ensures Slice(data, lo, mid) + Slice(data, mid, hi) == Slice(data, lo, hi)
  {
  }

  /** Tiling: in every run, whatever the log holds, the parsed records are contiguous from the start
      of the log, their raw bytes concatenate to the bytes read, and the header in force is the last
      one met. */
  lemma {:induction false} RecordsTile(data: Blob, base: nat, length: nat, index: nat, header: Option<SpecIdHeader>)
    ensures var r := ProcessFrom(data, base, length, index, header);
      && r.end == index + TotalLength(r.records)
      && Contiguous(r.records, base + index)
      && RawAll(r.records) == Slice(data, index, r.end)
      && (r.error.None? ==> r.header == LastHeader(r.records, header))
    decreases if index < length then length - index else 0
  {
    hide TurnAt;
    HaltKeepsHeader(data, base, length, index, header);
    var t := TurnAt(data, base, length, index, header);
    if t.Got? {
      var next := index + t.record.Length();
      TurnTiles(data, base, length, index, header);
      RecordsTile(data, base, length, next, After(t.record, header));
      var r := ProcessFrom(data, base, length, next, After(t.record, header));
      var all := ProcessFrom(data, base, length, index, header);
      assert all.records[0] == t.record && all.records[1..] == r.records;
      SliceConcat(data, index, next, r.end);
    }
  }

  // ---- the addresses printed by dump_td_event_logs ----

  /** The running address over the events. */
  function RunningAddresses(start: nat, es: seq<Entry>): seq<nat>
    decreases |es|
  {
    if es == [] then [] else [start] + RunningAddresses(start + es[0].length, es[1..])
  }

  /** The addresses printed, for the header and then the events. */
  function DumpAddresses(base: nat, header: SpecIdHeader, es: seq<Entry>): seq<nat> {
    [base] + RunningAddresses(base + header.length, es)
  }

  function TrueAddresses(es: seq<Entry>): seq<nat> {
    if es == [] then [] else [es[0].address] + TrueAddresses(es[1..])
  }

  predicate OnlyEvents(rs: seq<Record>) { forall i :: 0 <= i < |rs| ==> rs[i].EventRecord? }

  /** The first record is the header and no other record is one. */
  predicate Normal(rs: seq<Record>) {
    rs != [] && rs[0].HeaderRecord? && OnlyEvents(rs[1..])
  }

  lemma {:induction false} EventAddresses(rs: seq<Record>, address: nat)
    requires Contiguous(rs, address) && OnlyEvents(rs)
    ensures RunningAddresses(address, Events(rs)) == TrueAddresses(Events(rs))
  {
    if rs != [] {
      var e := rs[0].entry;
      assert Events(rs) == [e] + Events(rs[1..]);
      assert Events(rs)[1..] == Events(rs[1..]);
      EventAddresses(rs[1..], address + e.length);
    }
  }

  /** A header met later lies at a higher address. */
  lemma {:induction false} LaterHeader(rs: seq<Record>, address: nat, before: Option<SpecIdHeader>)
    requires Contiguous(rs, address)
    ensures OnlyEvents(rs) ==> LastHeader(rs, before) == before
    ensures !OnlyEvents(rs) ==> LastHeader(rs, before).Some? && LastHeader(rs, before).value.address >= address
  {
    if rs != [] {
      var now := if rs[0].HeaderRecord? then Some(rs[0].header) else before;
      LaterHeader(rs[1..], address + rs[0].Length(), now);
      assert OnlyEvents(rs) <==> rs[0].EventRecord? && OnlyEvents(rs[1..]) by {
        assert forall i :: 1 <= i < |rs| ==> rs[i] == rs[1..][i - 1];
      }
    }
  }

  /** For the records of a log starting at base, the dump prints the true address of the header and
      of every event if and only if the first record is the only EV_NO_ACTION record. */
  lemma DumpIsTrue(rs: seq<Record>, base: nat)
    requires Contiguous(rs, base) && LastHeader(rs, None).Some?
    ensures var h := LastHeader(rs, None).value;
      DumpAddresses(base, h, Events(rs)) == [h.address] + TrueAddresses(Events(rs)) <==> Normal(rs)
  {
    var h := LastHeader(rs, None).value;
    var first := rs[0];
    var now := if first.HeaderRecord? then Some(first.header) else None;
    LaterHeader(rs[1..], base + first.Length(), now);
    if Normal(rs) {
      assert Events(rs) == Events(rs[1..]);
      EventAddresses(rs[1..], base + first.Length());
    } else {
      assert h.address > base;
      assert DumpAddresses(base, h, Events(rs))[0] == base;
      assert ([h.address] + TrueAddresses(Events(rs)))[0] == h.address;
    }
  }
}
