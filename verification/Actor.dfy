/** TDEventLogActor and its record objects. */
module Actor {
  import opened Outcomes
  import opened Bytes
  import opened EventLog
  import opened LogRun
  import opened Replay

  // ---- calls on the actor as steps of a state machine ----

  /** The fields of the actor. */
  datatype State = State(header: Option<SpecIdHeader>, events: seq<Entry>, rtmrs: map<int, Register>)

  /** What does not change between calls: the log file (None if it cannot be opened), its address
      and length, and the hash. */
  datatype Env = Env(file: Option<Blob>, base: nat, length: nat, sha: Sha)

  datatype Outcome = Outcome(state: State, error: Option<Error>)

  const INITIAL := State(None, [], map[])

  /** process */
  function ProcessStep(st: State, env: Env): Outcome {
    if st.header.Some? || env.file.None? then Outcome(st, None)
    else if env.file.value == [] then Outcome(st, Some(AssertionError))
    else
      var r := ProcessFrom(env.file.value, env.base, env.length, 0, None);
      Outcome(st.(header := r.header, events := st.events + Events(r.records)), r.error)
  }

  /** replay */
  function ReplayStep(st: State, env: Env): Outcome {
    var p := ProcessStep(st, env);
    if p.error.Some? then p
    else if AllMeasured(p.state.events) then
      Outcome(p.state.(rtmrs := Registers(env.sha, p.state.events)), None)
    else Outcome(p.state, Some(LookupError))
  }

  /** dump_td_event_logs, which dereferences the header */
  function DumpStep(st: State, env: Env): Outcome {
    var p := ProcessStep(st, env);
    if p.error.None? && p.state.header.None? then Outcome(p.state, Some(MissingAttribute)) else p
  }

  datatype Call = Process | Replay | Dump

  function Step(st: State, env: Env, c: Call): Outcome {
    match c
    case Process => ProcessStep(st, env)
    case Replay => ReplayStep(st, env)
    case Dump => DumpStep(st, env)
  }

  /** The state after a sequence of calls, whatever they raise. */
  function AfterCalls(st: State, env: Env, cs: seq<Call>): State
    decreases |cs|
  {
    if cs == [] then st else AfterCalls(Step(st, env, cs[0]).state, env, cs[1..])
  }

  /** Once a header has been parsed, any sequence of calls keeps the header and the events, and a
      replay gives the same four registers wherever it is called, or raises wherever it is called. */
  lemma {:induction false} RepeatSafe(st: State, env: Env, cs: seq<Call>)
    requires st.header.Some?
    ensures var out := AfterCalls(st, env, cs);
      && out.header == st.header && out.events == st.events
      && (out.rtmrs == st.rtmrs || (AllMeasured(st.events) && out.rtmrs == Registers(env.sha, st.events)))
      && (AllMeasured(st.events) ==>
            ReplayStep(out, env) == Outcome(out.(rtmrs := Registers(env.sha, st.events)), None))
      && (!AllMeasured(st.events) ==> ReplayStep(out, env) == Outcome(out, Some(LookupError)))
    decreases |cs|
  {
    hide Registers, AllMeasured;
    if cs != [] {
      RepeatSafe(Step(st, env, cs[0]).state, env, cs[1..]);
    }
  }

  /** A second process on the same file adds nothing if and only if the first one met a header or no
      event at all: without a header the log is parsed and appended again. */
  lemma SecondProcess(env: Env)
    requires ProcessStep(INITIAL, env).error.None?
    ensures var once := ProcessStep(INITIAL, env).state;
      ProcessStep(once, env).state.events == once.events <==> once.header.Some? || once.events == []
  {
    hide ProcessFrom, Events;
    var once := ProcessStep(INITIAL, env).state;
    if once.header.None? && env.file.Some? && env.file.value != [] {
      assert once.events == [] + Events(ProcessFrom(env.file.value, env.base, env.length, 0, None).records);
      assert |ProcessStep(once, env).state.events| == 2 * |once.events|;
    }
  }

  // ---- from the bytes of a log to the registers ----

  lemma {:induction false} EventsOfRecords(entries: seq<Entry>)
    ensures Events(AsRecords(entries)) == entries
  {
    if entries != [] {
      EventsOfRecords(entries[1..]);
      assert AsRecords(entries)[1..] == AsRecords(entries[1..]);
      assert [entries[0]] + entries[1..] == entries;
    }
  }

  /** Events that name one of the registers 1 to 4 and carry a digest. */
  predicate AllExtend(es: seq<LogEvent>) {
    forall i :: 0 <= i < |es| ==> 1 <= es[i].reg <= RTMR_COUNT && es[i].digests != []
  }

  lemma MeasuredFirst(e: Entry, rest: seq<Entry>)
    ensures AllMeasured([e] + rest) <==> Measured(e) && AllMeasured(rest)
  {
    var all := [e] + rest;
    if AllMeasured(all) {
      assert Measured(all[0]);
      forall i | 0 <= i < |rest| ensures Measured(rest[i]) {
        assert rest[i] == all[i + 1];
      }
    }
  }

  lemma {:induction false} EntriesMeasured(es: seq<LogEvent>, address: nat)
    ensures AllMeasured(EntriesOf(es, address)) <==> AllExtend(es)
    decreases |es|
  {
    if es != [] {
      hide EncodeEvent, EntryOf, AllMeasured, Measured, AllExtend;
      var next := address + |EncodeEvent(es[0])|;
      EntriesMeasured(es[1..], next);
      MeasuredFirst(EntryOf(es[0], address), EntriesOf(es[1..], next));
      FirstExtends(es);
      EntryMeasured(es[0], address);
    } else {
      assert EntriesOf(es, address) == [];
    }
  }

  lemma FirstExtends(es: seq<LogEvent>)
    requires es != []
    ensures AllExtend(es) <==> (1 <= es[0].reg <= RTMR_COUNT && es[0].digests != []) && AllExtend(es[1..])
  {
    assert forall i :: 1 <= i < |es| ==> es[i] == es[1..][i - 1];
  }

  lemma EntryMeasured(e: LogEvent, address: nat)
    ensures Measured(EntryOf(e, address)) <==> 1 <= e.reg <= RTMR_COUNT && e.digests != []
  {
    hide EncodeEvent, LastAlgorithm;
  }

  /** A well-formed log in the file: Spec ID record, events without empty parts, proper end. */
  predicate GoodLog(s: SpecId, es: seq<LogEvent>, tail: Blob, env: Env) {
    && ValidSpecId(s) && AllValid(es, SizesOf(s.algorithms, map[])) && AllPresent(es)
    && Ended(tail, |EncodeSpecId(s)| + |EncodeEvents(es)|, env.length)
    && env.file == Some(EncodeSpecId(s) + EncodeEvents(es) + tail)
  }

  lemma EncodedLogParses(s: SpecId, es: seq<LogEvent>, tail: Blob, env: Env)
    requires GoodLog(s, es, tail, env)
    ensures ProcessStep(INITIAL, env)
         == Outcome(State(Some(HeaderOf(s, env.base)), EntriesOf(es, env.base + |EncodeSpecId(s)|), map[]), None)
  {
    hide ProcessFrom, EncodeSpecId, EncodeEvents, AllValid, AllPresent, HeaderOf, AsRecords, EntriesOf;
    var n := |EncodeSpecId(s)|;
    LogInverse(s, es, tail, env.base, env.length);
    EventsOfRecords(EntriesOf(es, env.base + n));
    SpecIdStart(s, []);
    var header, parsed := HeaderRecord(HeaderOf(s, env.base)), Parsed(es, env.base + n);
    assert ([header] + parsed)[1..] == parsed;
    assert Events([header] + parsed) == [] + Events(parsed) == Events(parsed);
    assert [] + Events(parsed) == Events(parsed);
  }

  /** The bytes of a well-formed log replay to the registers of the hardware that measured its
      events; replay raises instead exactly when an event has no digest or another register. */
  lemma EncodedLogReplays(s: SpecId, es: seq<LogEvent>, tail: Blob, env: Env)
    requires GoodLog(s, es, tail, env)
    ensures ReplayStep(INITIAL, env).error.None? <==> AllExtend(es)
    ensures AllExtend(es) ==>
      var entries := EntriesOf(es, env.base + |EncodeSpecId(s)|);
      AllMeasured(entries) && ReplayStep(INITIAL, env).state.rtmrs == AsMap(Hardware(env.sha, entries))
  {
    hide ProcessStep, GoodLog, EncodeSpecId, EntriesOf, HeaderOf, Registers, Hardware, AsMap, AllMeasured, AllExtend;
    EncodedLogParses(s, es, tail, env);
    GoodLogIsValid(s, es, tail, env);
    var entries := EntriesOf(es, env.base + |EncodeSpecId(s)|);
    EntriesMeasured(es, env.base + |EncodeSpecId(s)|);
    if AllMeasured(entries) {
      BatchIsHardware(env.sha, entries);
    }
  }

  /** The first digests that a list of log events extends a register with, in order. */
  function Stream(es: seq<LogEvent>, reg: int): seq<Blob>
    requires AllExtend(es)
  {
    if es == [] then []
    else (if es[0].reg - 1 == reg then [es[0].digests[0].bytes] else []) + Stream(es[1..], reg)
  }

  lemma {:induction false} StreamOfEntries(es: seq<LogEvent>, address: nat, reg: int)
    requires AllExtend(es)
    ensures AllMeasured(EntriesOf(es, address)) && DigestsFor(EntriesOf(es, address), reg) == Stream(es, reg)
    decreases |es|
  {
    hide EncodeEvent, EntryOf, DigestsFor, AllMeasured;
    EntriesMeasured(es, address);
    if es == [] {
      NoDigestsFor(reg);
    } else {
      var next := address + |EncodeEvent(es[0])|;
      var first, rest := EntryOf(es[0], address), EntriesOf(es[1..], next);
      StreamOfEntries(es[1..], next, reg);
      MeasuredFirst(first, rest);
      OneDigest(first, reg);
      DigestsForConcat([first], rest, reg);
      EntryDigest(es[0], address);
    }
  }

  lemma EntryDigest(e: LogEvent, address: nat)
    requires e.digests != []
    ensures var entry := EntryOf(e, address);
      entry.rtmr == e.reg - 1 && entry.digests != [] && entry.digests[0] == e.digests[0].bytes
  {
    hide EncodeEvent;
  }

  lemma OneDigest(e: Entry, reg: int)
    requires Measured(e)
    ensures AllMeasured([e]) && DigestsFor([e], reg) == if e.rtmr == reg then [e.digests[0]] else []
  {
    assert [e][..0] == [];
  }

  /** A log with an event without payload or digest: process, replay and dump raise, and no register is set. */
  lemma EncodedLogRaises(s: SpecId, es: seq<LogEvent>, tail: Blob, env: Env)
    requires ValidSpecId(s) && AllValid(es, SizesOf(s.algorithms, map[])) && !AllPresent(es)
    requires Ended(tail, |EncodeSpecId(s)| + |EncodeEvents(es)|, env.length)
    requires env.file == Some(EncodeSpecId(s) + EncodeEvents(es) + tail)
    ensures ProcessStep(INITIAL, env).error == Some(TypeError)
    ensures ReplayStep(INITIAL, env) == ProcessStep(INITIAL, env) == DumpStep(INITIAL, env)
    ensures ReplayStep(INITIAL, env).state.rtmrs == map[]
  {
    hide ProcessFrom, EncodeSpecId, EncodeEvents, AllValid, AllPresent, Ended, SizesOf;
    LogInverse(s, es, tail, env.base, env.length);
    SpecIdStart(s, []);
  }

  /** Dumping a well-formed log parses it and does not raise. */
  lemma DumpParses(s: SpecId, es: seq<LogEvent>, tail: Blob, env: Env)
    requires GoodLog(s, es, tail, env)
    ensures DumpStep(INITIAL, env) == ProcessStep(INITIAL, env) && DumpStep(INITIAL, env).error.None?
  {
    hide ProcessStep, GoodLog, EntriesOf, HeaderOf;
    EncodedLogParses(s, es, tail, env);
  }

  /** Before a header is parsed a dump raises unless process does or meets one; a missing file leaves the actor
      as it is. */
  lemma DumpNeedsHeader(env: Env)
    ensures env.file.None? ==>
      ProcessStep(INITIAL, env) == Outcome(INITIAL, None) && DumpStep(INITIAL, env).error == Some(MissingAttribute)
    ensures env.file == Some([]) ==> ProcessStep(INITIAL, env).error == Some(AssertionError)
  {
  }

  /** The registers that the bytes of a log replay to. */
  lemma LogRegisters(s: SpecId, es: seq<LogEvent>, tail: Blob, env: Env, reg: int)
    requires GoodLog(s, es, tail, env) && AllExtend(es) && 0 <= reg < 4
    ensures var rtmrs := ReplayStep(INITIAL, env).state.rtmrs;
      reg in rtmrs && rtmrs[reg] == Fold(env.sha, Stream(es, reg))
  {
    hide ReplayStep, GoodLog, EncodeSpecId, EntriesOf, Registers, AllMeasured, AllExtend, DigestsFor, Stream, Fold,
      ValidSpecId;
    GoodLogIsValid(s, es, tail, env);
    LogFolds(s, es, tail, env);
    var entries := EntriesOf(es, env.base + |EncodeSpecId(s)|);
    StreamOfEntries(es, env.base + |EncodeSpecId(s)|, reg);
    RegisterAt(env.sha, entries, reg);
  }

  /** A register without an event is 48 zero bytes, and one with a single event is the hash of 48 zero bytes and
      its first digest. */
  lemma FirstRegisters(s: SpecId, es: seq<LogEvent>, tail: Blob, env: Env, reg: int)
    requires GoodLog(s, es, tail, env) && AllExtend(es) && 0 <= reg < 4
    ensures reg in ReplayStep(INITIAL, env).state.rtmrs
    ensures var r := ReplayStep(INITIAL, env).state.rtmrs[reg];
      && (Stream(es, reg) == [] ==> |r| == 48 && forall i :: 0 <= i < 48 ==> r[i] == 0)
      && (|Stream(es, reg)| == 1 ==> r == env.sha(Fill(0, 48) + Stream(es, reg)[0]))
  {
    hide ReplayStep, GoodLog, AllExtend, Stream, Fold;
    LogRegisters(s, es, tail, env, reg);
    OneFold(env.sha, Stream(es, reg));
  }

  lemma LogFolds(s: SpecId, es: seq<LogEvent>, tail: Blob, env: Env)
    requires GoodLog(s, es, tail, env) && AllExtend(es) && ValidSpecId(s)
    ensures var entries := EntriesOf(es, env.base + |EncodeSpecId(s)|);
      AllMeasured(entries) && ReplayStep(INITIAL, env).state.rtmrs == Registers(env.sha, entries)
  {
    hide ProcessStep, GoodLog, EncodeSpecId, EntriesOf, HeaderOf, Registers, AllMeasured, AllExtend;
    EncodedLogParses(s, es, tail, env);
    EntriesMeasured(es, env.base + |EncodeSpecId(s)|);
  }

  lemma RegisterAt(sha: Sha, es: seq<Entry>, reg: int)
    requires AllMeasured(es) && 0 <= reg < 4
    ensures Registers(sha, es).Keys == {0, 1, 2, 3}
    ensures Registers(sha, es)[reg] == Fold(sha, DigestsFor(es, reg))
  {
    hide Fold, DigestsFor;
  }

  lemma OneFold(sha: Sha, ds: seq<Blob>)
    ensures ds == [] ==> forall i :: 0 <= i < 48 ==> Fold(sha, ds)[i] == 0
    ensures |ds| == 1 ==> Fold(sha, ds) == sha(Fill(0, 48) + ds[0])
  {
    hide Fold;
    FoldLaw(sha, [], if ds == [] then [] else ds[0]);
    assert Fold(sha, []) == Fill(0, 48);
    if |ds| == 1 { assert ds == [] + [ds[0]]; }
  }

  /** Two log files: if their replays leave the same registers, they carry the same digests in the same
      order, register by register, or break SHA-384; and the same digests leave the same registers. */
  lemma LogsBind(s: SpecId, es: seq<LogEvent>, tail: Blob, env: Env,
                 t: SpecId, fs: seq<LogEvent>, end: Blob, other: Env)
    requires GoodLog(s, es, tail, env) && GoodLog(t, fs, end, other) && env.sha == other.sha
    requires AllExtend(es) && AllExtend(fs)
    ensures ReplayStep(INITIAL, env).state.rtmrs == ReplayStep(INITIAL, other).state.rtmrs ==>
      forall reg :: 0 <= reg < RTMR_COUNT && Stream(es, reg) != Stream(fs, reg) ==>
        Breaks(env.sha, Expose(env.sha, Stream(es, reg), Stream(fs, reg)))
    ensures (forall reg :: 0 <= reg < RTMR_COUNT ==> Stream(es, reg) == Stream(fs, reg)) ==>
      ReplayStep(INITIAL, env).state.rtmrs == ReplayStep(INITIAL, other).state.rtmrs
  {
    hide ProcessStep, GoodLog, EncodeSpecId, EntriesOf, HeaderOf, Registers, AllMeasured, AllExtend, DigestsFor, Stream,
      Fold, Expose, Breaks;
    EncodedLogParses(s, es, tail, env);
    EncodedLogParses(t, fs, end, other);
    GoodLogIsValid(s, es, tail, env);
    GoodLogIsValid(t, fs, end, other);
    var a, b := env.base + |EncodeSpecId(s)|, other.base + |EncodeSpecId(t)|;
    var x, y := EntriesOf(es, a), EntriesOf(fs, b);
    EntriesMeasured(es, a);
    EntriesMeasured(fs, b);
    forall reg ensures DigestsFor(x, reg) == Stream(es, reg) && DigestsFor(y, reg) == Stream(fs, reg)
    {
      StreamOfEntries(es, a, reg);
      StreamOfEntries(fs, b, reg);
    }
    if Registers(env.sha, x) == Registers(env.sha, y) {
      forall reg | 0 <= reg < RTMR_COUNT && Stream(es, reg) != Stream(fs, reg)
        ensures Breaks(env.sha, Expose(env.sha, Stream(es, reg), Stream(fs, reg)))
      {
        RegistersBind(env.sha, x, y, reg);
      }
    }
    if forall reg :: 0 <= reg < RTMR_COUNT ==> Stream(es, reg) == Stream(fs, reg) {
      SameDigestsSameRegisters(env.sha, x, y);
    }
  }

  lemma SameDigestsSameRegisters(sha: Sha, x: seq<Entry>, y: seq<Entry>)
    requires AllMeasured(x) && AllMeasured(y)
    requires forall reg :: 0 <= reg < RTMR_COUNT ==> DigestsFor(x, reg) == DigestsFor(y, reg)
    ensures Registers(sha, x) == Registers(sha, y)
  {
    hide DigestsFor, Fold;
  }

  lemma GoodLogIsValid(s: SpecId, es: seq<LogEvent>, tail: Blob, env: Env)
    requires GoodLog(s, es, tail, env)
    ensures ValidSpecId(s)
  {
  }

  // ---- the objects ----

  class TDEventLogSpecIdHeader {
    var address: nat
    var rtmr: int
    var etype: nat
    var digestCount: nat
    var algorithms: nat
    var digestSizes: map<nat, nat>
    var length: nat
    var raw: Blob

    ghost function Value(): SpecIdHeader
      reads this
    {
      SpecIdHeader(address, rtmr, etype, digestCount, algorithms, digestSizes, length, raw)
    }

    constructor (address: nat)
      ensures Value() == BlankHeader(address)
    {
      this.address := address;
      rtmr, etype, digestCount, algorithms := 0, 0, 0, 0;
      digestSizes := map[];
      length, raw := 0, [];
    }

    /** parse on a new object; an error leaves what was parsed before it. */
    method Parse(data: Blob) returns (error: Option<Error>)
      requires Value() == BlankHeader(address)
      modifies this
      ensures HeaderParse(Value(), error) == ParseSpecId(data, old(address))
    {
      hide FromLe, ParseSizes;
      if |data| < 8 { return Some(AssertionError); }
      var register: int := FromLe(data[0..4]);
      etype := FromLe(data[4..8]);
      if |data| < 12 { return Some(AssertionError); }
      digestCount := FromLe(data[8..12]);
      rtmr := register - 1;
      if |data| < 60 { return Some(AssertionError); }
      algorithms := FromLe(data[56..60]);
      var ok, index := ParseAlgorithms(data, 60, algorithms);
      if !ok || index >= |data| { return Some(AssertionError); }
      var vendorSize := data[index];
      index := index + 1 + vendorSize;
      length := index;
      raw := Slice(data, 0, index);
      return None;
    }

    /** The loop over the algorithms. */
    method ParseAlgorithms(data: Blob, start: nat, n: nat) returns (ok: bool, index: nat)
      requires digestSizes == map[]
      modifies this`digestSizes
      ensures SizesParse(digestSizes, index, ok) == ParseSizes(data, start, n, map[])
    {
      hide FromLe;
      index := start;
      var left := n;
      while left > 0
        invariant ParseSizes(data, start, n, map[]) == ParseSizes(data, index, left, digestSizes)
      {
        if index + 4 > |data| { return false, index; }
        var algoid, size := FromLe(data[index..index + 2]), FromLe(data[index + 2..index + 4]);
        digestSizes := digestSizes[algoid := size];
        index := index + 4;
        left := left - 1;
      }
      ok := true;
    }
  }

  class TDEventLogEntry {
    var address: nat
    const specId: TDEventLogSpecIdHeader?
    var rtmr: int
    var etype: nat
    var digestCount: nat
    var digests: seq<Blob>
    var algorithm: nat
    var eventSize: nat
    var event: Blob
    var length: nat
    var raw: Blob

    ghost function Value(): Entry
      reads this
    {
      Entry(address, rtmr, etype, digestCount, digests, algorithm, eventSize, event, length, raw)
    }

    constructor (address: nat, specId: TDEventLogSpecIdHeader?)
      ensures this.specId == specId && Value() == BlankEntry(address)
    {
      this.address := address;
      this.specId := specId;
      rtmr, etype, digestCount := 0, 0, 0;
      digests, algorithm := [], 0;
      eventSize, event, length, raw := 0, [], 0, [];
    }

    /** parse on a new object; an error leaves what was parsed before it. */
    method Parse(data: Blob) returns (error: Option<Error>)
      requires Value() == BlankEntry(address)
      modifies this
      ensures address == old(address)
      ensures match ParseEntry(data, address, HeaderValue(specId))
              case Success(e) => error.None? && Value() == e
              case Failure(e) => error == Some(e) && Value() == EntryLeft(data, address, HeaderValue(specId))
    {
      hide FromLe, ParseDigests, DigestsLeft;
      if |data| < 8 { return Some(AssertionError); }
      var register: int := FromLe(data[0..4]);
      etype := FromLe(data[4..8]);
      if |data| < 12 { return Some(AssertionError); }
      digestCount := FromLe(data[8..12]);
      rtmr := register - 1;
      var failed, index := ReadDigests(data, 12, digestCount);
      if failed.Some? { return failed; }
      if index + 4 > |data| { return Some(AssertionError); }
      eventSize := FromLe(data[index..index + 4]);
      var payload := GetBytes(data, index + 4, eventSize);
      if payload.Failure? { return Some(payload.error); }
      event := payload.value.value;
      index := payload.value.pos;
      length := index;
      raw := data[..index];
      return None;
    }

    /** The loop over the digests. */
    method ReadDigests(data: Blob, start: nat, n: nat) returns (error: Option<Error>, index: nat)
      requires digests == [] && algorithm == 0
      modifies this`digests, this`algorithm
      ensures match ParseDigests(data, start, n, HeaderValue(specId), 0)
              case Success(ds) => error.None? && Digests(digests, algorithm, index) == ds
              case Failure(e) => error == Some(e)
      ensures Leftover(digests, algorithm) == DigestsLeft(data, start, n, HeaderValue(specId), 0)
    {
      hide FromLe;
      index := start;
      error := None;
      var left := n;
      ghost var header := HeaderValue(specId);
      ghost var all := ParseDigests(data, start, n, header, 0);
      ghost var left0 := DigestsLeft(data, start, n, header, 0);
      PrependNone(all);
      assert [] + left0.digests == left0.digests;
      while left > 0
        invariant header == HeaderValue(specId)
        invariant all == PrependDigests(digests, ParseDigests(data, index, left, header, algorithm))
        invariant left0 == PrependLeft(digests, DigestsLeft(data, index, left, header, algorithm))
      {
        if index + 2 > |data| { return Some(AssertionError), index; }
        var algoid := FromLe(data[index..index + 2]);
        if specId == null { return Some(MissingAttribute), index; }
        if algoid !in specId.digestSizes { return Some(AssertionError), index; }
        var digest := GetBytes(data, index + 2, specId.digestSizes[algoid]);
        PrependNothing(digests, algorithm);
        PrependNothing(digests, algoid);
        algorithm := algoid;
        if digest.Failure? { return Some(digest.error), index; }
        PrependMore(digests, digest.value.value, ParseDigests(data, digest.value.pos, left - 1, header, algoid));
        PrependMoreLeft(digests, digest.value.value, DigestsLeft(data, digest.value.pos, left - 1, header, algoid));
        digests := digests + [digest.value.value];
        index := digest.value.pos;
        left := left - 1;
      }
    }
  }

  ghost function HeaderValue(h: TDEventLogSpecIdHeader?): Option<SpecIdHeader>
    reads h
  {
    if h == null then None else Some(h.Value())
  }

  ghost function PrependDigests(ds: seq<Blob>, rest: Result<Digests>): Result<Digests> {
    match rest
    case Failure(e) => Failure(e)
    case Success(r) => Success(r.(digests := ds + r.digests))
  }

  ghost function PrependLeft(ds: seq<Blob>, rest: Leftover): Leftover {
    Leftover(ds + rest.digests, rest.algorithm)
  }

  lemma PrependNothing(ds: seq<Blob>, algorithm: nat)
    ensures PrependLeft(ds, Leftover([], algorithm)) == Leftover(ds, algorithm)
  {
    assert ds + [] == ds;
  }

  lemma PrependMoreLeft(ds: seq<Blob>, d: Blob, rest: Leftover)
    ensures PrependLeft(ds + [d], rest) == PrependLeft(ds, Leftover([d] + rest.digests, rest.algorithm))
  {
    assert ds + [d] + rest.digests == ds + ([d] + rest.digests);
  }

  lemma PrependNone(rest: Result<Digests>)
    ensures PrependDigests([], rest) == rest
  {
    if rest.Success? { assert [] + rest.value.digests == rest.value.digests; }
  }

  lemma PrependMore(ds: seq<Blob>, d: Blob, rest: Result<Digests>)
    ensures PrependDigests(ds + [d], rest) == PrependDigests(ds, PrependDigests([d], rest))
  {
    if rest.Success? { assert ds + [d] + rest.value.digests == ds + ([d] + rest.value.digests); }
  }

  ghost function Values(es: seq<TDEventLogEntry>): (r: seq<Entry>)
    reads es
    ensures |r| == |es|
    ensures forall i :: 0 <= i < |es| ==> r[i] == es[i].Value()
  {
    seq(|es|, i requires 0 <= i < |es| reads es => es[i].Value())
  }

  lemma {:induction false} EventsAppend(rs: seq<Record>, r: Record)
    ensures Events(rs + [r]) == Events(rs) + (if r.EventRecord? then [r.entry] else [])
  {
    if rs == [] {
      assert rs + [r] == [r] && [r][1..] == [];
    } else {
      EventsAppend(rs[1..], r);
      assert (rs + [r])[1..] == rs[1..] + [r];
    }
  }

  class TDEventLogActor {
    const env: Env
    var specId: TDEventLogSpecIdHeader?
    var eventLogs: seq<TDEventLogEntry>
    var rtmrs: map<int, Register>

    ghost function Value(): State
      reads this, specId, eventLogs
    {
      State(HeaderValue(specId), Values(eventLogs), rtmrs)
    }

    constructor (env: Env)
      ensures this.env == env && Value() == INITIAL
    {
      this.env := env;
      specId, eventLogs, rtmrs := null, [], map[];
    }

    /** process */
    method ProcessLog() returns (error: Option<Error>)
      modifies this`specId, this`eventLogs
      ensures Outcome(Value(), error) == ProcessStep(old(Value()), env)
    {
      if specId != null || env.file.None? {
        return None;
      }
      var data := env.file.value;
      if data == [] {
        return Some(AssertionError);
      }
      error := Loop(data);
    }

    /** The turn of the loop on a header record; a header that fails to parse stays in the field. */
    method ParseHeaderAt(data: Blob, index: nat) returns (failed: Option<Error>)
      requires index <= |data|
      modifies this`specId
      ensures specId != null && HeaderParse(specId.Value(), failed) == ParseSpecId(data[index..], env.base + index)
      ensures Values(eventLogs) == old(Values(eventLogs))
    {
      hide ParseSpecId;
      specId := new TDEventLogSpecIdHeader(env.base + index);
      failed := specId.Parse(data[index..]);
    }

    /** The turn of the loop on an event; an entry that fails to parse is dropped. */
    method ParseEntryAt(data: Blob, index: nat) returns (failed: Option<Error>, entry: TDEventLogEntry)
      requires index <= |data|
      modifies this`eventLogs
      ensures match ParseEntry(data[index..], env.base + index, HeaderValue(specId))
              case Success(e) => failed.None? && entry.Value() == e && Values(eventLogs) == old(Values(eventLogs)) + [e]
              case Failure(e) => failed == Some(e) && Values(eventLogs) == old(Values(eventLogs))
      ensures HeaderValue(specId) == old(HeaderValue(specId))
    {
      hide ParseEntry, EntryLeft;
      entry := new TDEventLogEntry(env.base + index, specId);
      failed := entry.Parse(data[index..]);
      if failed.None? {
        eventLogs := eventLogs + [entry];
      }
    }

    /** The loop of process. */
    method Loop(data: Blob) returns (error: Option<Error>)
      requires specId == null
      modifies this`specId, this`eventLogs
      ensures var r := ProcessFrom(data, env.base, env.length, 0, None);
        error == r.error && HeaderValue(specId) == r.header
        && Values(eventLogs) == old(Values(eventLogs)) + Events(r.records)
    {
      hide ProcessFrom, TurnAt, Events, Values, PrependRecords, ParseSpecId, ParseEntry, FromLe, LastHeader;
      var index: nat := 0;
      ghost var all := ProcessFrom(data, env.base, env.length, 0, None);
      ghost var before := Values(eventLogs);
      ghost var seen: seq<Record> := [];
      LoopStart(all);
      assert Values(eventLogs) == before + [];
      while index < env.length
        invariant all == PrependRecords(seen, ProcessFrom(data, env.base, env.length, index, HeaderValue(specId)))
        invariant Values(eventLogs) == before + Events(seen)
        decreases env.length - index
      {
        ghost var header := HeaderValue(specId);
        LoopTurn(data, env, index, header, seen);
        TurnParts(data, env, index, header);
        if index + 8 > |data| {
          return Some(AssertionError);
        }
        var register, etype := FromLe(data[index..index + 4]), FromLe(data[index + 4..index + 8]);
        if register == LOG_END {
          break;
        }
        if etype == EV_NO_ACTION {
          var failed := ParseHeaderAt(data, index);
          if failed.Some? {
            return failed;
          }
          EventsAppend(seen, HeaderRecord(specId.Value()));
          seen := seen + [HeaderRecord(specId.Value())];
          index := index + specId.length;
        } else {
          var failed, entry := ParseEntryAt(data, index);
          if failed.Some? {
            return failed;
          }
          EventsAppend(seen, EventRecord(entry.Value()));
          seen := seen + [EventRecord(entry.Value())];
          index := index + entry.length;
        }
      }
      LoopTurn(data, env, index, HeaderValue(specId), seen);
      TurnParts(data, env, index, HeaderValue(specId));
      return None;
    }

    /** _replay_single_rtmr: the rolling hash over the first digests. */
    method ReplaySingle(logs: seq<TDEventLogEntry>) returns (r: Result<Register>)
      ensures r == if HaveDigests(Values(logs)) then Success(Fold(env.sha, Firsts(Values(logs))))
                   else Failure(LookupError)
    {
      FoldNone(env.sha);
      hide Fold, Zero;
      var rtmr := Zero();
      var i := 0;
      ghost var es := Values(logs);
      while i < |logs|
        invariant 0 <= i <= |logs| == |es| && es == Values(logs)
        invariant HaveDigests(es[..i]) && rtmr == Fold(env.sha, Firsts(es[..i]))
      {
        if logs[i].digests == [] {
          assert es[i].digests == [];
          return Failure(LookupError);
        }
        FoldMore(env.sha, Firsts(es[..i]), es[i].digests[0]);
        assert Firsts(es[..i + 1]) == Firsts(es[..i]) + [es[i].digests[0]];
        rtmr := env.sha(rtmr + logs[i].digests[0]);
        i := i + 1;
      }
      assert es[..i] == es;
      r := Success(rtmr);
    }

    /** The partition of replay: the entries of each register, or a KeyError. */
    method Partition() returns (r: Result<map<int, seq<TDEventLogEntry>>>)
      ensures !InRange(Values(eventLogs)) ==> r == Failure(LookupError)
      ensures InRange(Values(eventLogs)) ==> r.Success? && r.value.Keys == {0, 1, 2, 3}
      ensures r.Success? && r.value.Keys == {0, 1, 2, 3} ==>
        && Values(r.value[0]) == Group(Values(eventLogs), 0) && Values(r.value[1]) == Group(Values(eventLogs), 1)
        && Values(r.value[2]) == Group(Values(eventLogs), 2) && Values(r.value[3]) == Group(Values(eventLogs), 3)
    {
      NoEntries();
      hide Values, Group, Grouped;
      var groups: map<int, seq<TDEventLogEntry>> := map[0 := [], 1 := [], 2 := [], 3 := []];
      ghost var es := Values(eventLogs);
      var i := 0;
      assert es[..0] == [];
      NothingGrouped();
      while i < |eventLogs|
        invariant 0 <= i <= |eventLogs| == |es|
        invariant forall j :: 0 <= j < i ==> 0 <= es[j].rtmr < RTMR_COUNT
        invariant groups.Keys == {0, 1, 2, 3} && Grouped(groups, es[..i])
      {
        var e := eventLogs[i];
        if e.rtmr !in groups {
          assert !(0 <= es[i].rtmr < RTMR_COUNT);
          return Failure(LookupError);
        }
        GroupedMore(groups, es, i, e);
        groups := groups[e.rtmr := groups[e.rtmr] + [e]];
        i := i + 1;
      }
      assert es[..i] == es;
      GroupedParts(groups, es);
      r := Success(groups);
    }

    /** The body of replay after process: partition, then one rolling hash per register. */
    method FoldGroups() returns (r: Result<map<int, Register>>)
      ensures r == if AllMeasured(Values(eventLogs)) then Success(Registers(env.sha, Values(eventLogs)))
                   else Failure(LookupError)
    {
      hide Fold, DigestsFor, Group, HaveDigests, AllMeasured, InRange, Values;
      ghost var es := Values(eventLogs);
      GroupsCover(es);
      GroupDigests(es, 0); GroupDigests(es, 1); GroupDigests(es, 2); GroupDigests(es, 3);
      var groups := Partition();
      if groups.Failure? {
        return Failure(LookupError);
      }
      var r0 := ReplaySingle(groups.value[0]);
      var r1 := ReplaySingle(groups.value[1]);
      var r2 := ReplaySingle(groups.value[2]);
      var r3 := ReplaySingle(groups.value[3]);
      if r0.Failure? || r1.Failure? || r2.Failure? || r3.Failure? {
        return Failure(LookupError);
      }
      r := Success(map[0 := r0.value, 1 := r1.value, 2 := r2.value, 3 := r3.value]);
    }

    /** replay */
    method ReplayLog() returns (error: Option<Error>)
      modifies this
      ensures Outcome(Value(), error) == ReplayStep(old(Value()), env)
    {
      hide ProcessStep, Registers, AllMeasured;
      error := ProcessLog();
      if error.Some? {
        return;
      }
      var folded := FoldGroups();
      if folded.Failure? {
        return Some(folded.error);
      }
      rtmrs := folded.value;
    }

    /** dump_td_event_logs, as the addresses it prints. */
    method DumpLogs() returns (error: Option<Error>, addresses: seq<nat>)
      modifies this`specId, this`eventLogs
      ensures Outcome(Value(), error) == DumpStep(old(Value()), env)
      ensures error.None? && HeaderValue(specId).Some? ==>
        addresses == DumpAddresses(env.base, HeaderValue(specId).value, Values(eventLogs))
    {
      hide ProcessStep, Values;
      error := ProcessLog();
      addresses := [];
      if error.Some? {
        return;
      }
      if specId == null {
        error := Some(MissingAttribute);
        return;
      }
      var start := 0;
      addresses := [env.base + start];
      start := start + specId.length;
      ghost var es := Values(eventLogs);
      ghost var all := DumpAddresses(env.base, specId.Value(), es);
      var i := 0;
      assert es[0..] == es;
      while i < |eventLogs|
        invariant 0 <= i <= |eventLogs| == |es| && start >= 0
        invariant all == addresses + RunningAddresses(env.base + start, es[i..])
      {
        assert es[i..][1..] == es[i + 1..];
        addresses := addresses + [env.base + start];
        start := start + eventLogs[i].length;
        i := i + 1;
      }
    }
  }

  // ---- the two stages of replay ----

  /** The entries of one register, in order. */
  function Group(es: seq<Entry>, reg: int): seq<Entry> {
    if es == [] then []
    else Group(es[..|es| - 1], reg) + (if es[|es| - 1].rtmr == reg then [es[|es| - 1]] else [])
  }

  predicate HaveDigests(es: seq<Entry>) { forall i :: 0 <= i < |es| ==> es[i].digests != [] }

  function Firsts(es: seq<Entry>): (ds: seq<Blob>)
    requires HaveDigests(es)
    ensures |ds| == |es| && forall i :: 0 <= i < |es| ==> ds[i] == es[i].digests[0]
  {
    seq(|es|, i requires 0 <= i < |es| => es[i].digests[0])
  }

  lemma GroupMore(es: seq<Entry>, i: nat, reg: int)
    requires i < |es|
    ensures Group(es[..i + 1], reg) == if reg == es[i].rtmr then Group(es[..i], reg) + [es[i]] else Group(es[..i], reg)
  {
    assert es[..i + 1][..i] == es[..i];
    assert Group(es[..i], reg) + [] == Group(es[..i], reg);
  }

  /** The groups hold the entries of their registers. */
  ghost predicate Grouped(groups: map<int, seq<TDEventLogEntry>>, es: seq<Entry>)
    reads *
  {
    groups.Keys == {0, 1, 2, 3} && forall reg :: 0 <= reg < 4 ==> Values(groups[reg]) == Group(es, reg)
  }

  lemma NothingGrouped()
    ensures Grouped(map[0 := [], 1 := [], 2 := [], 3 := []], [])
  {
    NoEntries();
    hide Values, Group;
  }

  lemma GroupedParts(groups: map<int, seq<TDEventLogEntry>>, es: seq<Entry>)
    requires Grouped(groups, es)
    ensures groups.Keys == {0, 1, 2, 3}
    ensures Values(groups[0]) == Group(es, 0) && Values(groups[1]) == Group(es, 1)
    ensures Values(groups[2]) == Group(es, 2) && Values(groups[3]) == Group(es, 3)
  {
    hide Values, Group;
  }

  lemma GroupedMore(groups: map<int, seq<TDEventLogEntry>>, es: seq<Entry>, i: nat, e: TDEventLogEntry)
    requires i < |es| && Grouped(groups, es[..i]) && es[i] == e.Value() && e.rtmr in groups
    ensures Grouped(groups[e.rtmr := groups[e.rtmr] + [e]], es[..i + 1])
  {
    hide Values, Group;
    var more := groups[e.rtmr := groups[e.rtmr] + [e]];
    ValuesMore(groups[e.rtmr], e);
    forall reg | 0 <= reg < 4 ensures Values(more[reg]) == Group(es[..i + 1], reg) { GroupMore(es, i, reg); }
  }

  lemma NoEntries()
    ensures Values([]) == [] && forall k :: Group([], k) == []
  {
  }

  lemma ValuesMore(es: seq<TDEventLogEntry>, e: TDEventLogEntry)
    ensures Values(es + [e]) == Values(es) + [e.Value()]
  {
  }

  /** Grouping and then folding is folding the digests of the register. */
  lemma {:induction false} GroupDigests(es: seq<Entry>, reg: int)
    ensures AllMeasured(es) ==> HaveDigests(Group(es, reg)) && Firsts(Group(es, reg)) == DigestsFor(es, reg)
    decreases |es|
  {
    if es != [] && AllMeasured(es) {
      var front := es[..|es| - 1];
      GroupDigests(front, reg);
      assert Firsts(Group(es, reg)) == DigestsFor(es, reg);
    }
  }

  predicate GroupsHaveDigests(es: seq<Entry>) {
    HaveDigests(Group(es, 0)) && HaveDigests(Group(es, 1)) && HaveDigests(Group(es, 2)) && HaveDigests(Group(es, 3))
  }

  lemma GroupStep(es: seq<Entry>, k: int)
    requires es != []
    ensures var front, last := es[..|es| - 1], es[|es| - 1];
      HaveDigests(Group(es, k)) <==> HaveDigests(Group(front, k)) && (last.rtmr == k ==> last.digests != [])
  {
    var front, last := es[..|es| - 1], es[|es| - 1];
    var g := Group(front, k);
    if last.rtmr == k {
      assert Group(es, k)[|g|] == last && forall i :: 0 <= i < |g| ==> Group(es, k)[i] == g[i];
    } else {
      assert Group(es, k) == g;
    }
  }

  predicate InRange(es: seq<Entry>) { forall i :: 0 <= i < |es| ==> 0 <= es[i].rtmr < RTMR_COUNT }

  /** Both stages of replay succeed exactly when every entry is measured. */
  lemma {:induction false} GroupsCover(es: seq<Entry>)
    ensures AllMeasured(es) <==> InRange(es) && GroupsHaveDigests(es)
    decreases |es|
  {
    if es != [] {
      var front, last := es[..|es| - 1], es[|es| - 1];
      GroupsCover(front);
      GroupStep(es, 0); GroupStep(es, 1); GroupStep(es, 2); GroupStep(es, 3);
      hide Group, HaveDigests;
      assert AllMeasured(es) <==> AllMeasured(front) && Measured(last);
      assert InRange(es) <==> InRange(front) && 0 <= last.rtmr < RTMR_COUNT;
    }
  }

  /** The outcome of a loop that has already parsed rs. */
  ghost function PrependRecords(rs: seq<Record>, r: Run): Run { r.(records := rs + r.records) }

  lemma LoopStart(r: Run)
    ensures PrependRecords([], r) == r && Events([]) == []
  {
    assert [] + r.records == r.records;
  }

  /** One turn, as a change of what remains to be parsed. */
  lemma LoopTurn(data: Blob, env: Env, index: nat, header: Option<SpecIdHeader>, seen: seq<Record>)
    ensures var t := TurnAt(data, env.base, env.length, index, header);
      var all := PrependRecords(seen, ProcessFrom(data, env.base, env.length, index, header));
      && (t.Halt? ==> all == Run(seen, index, t.header, t.error))
      && (t.Got? ==> all == PrependRecords(seen + [t.record],
                              ProcessFrom(data, env.base, env.length, index + t.record.Length(),
                                          EventLog.After(t.record, header))))
  {
    hide TurnAt;
    var t := TurnAt(data, env.base, env.length, index, header);
    if t.Got? {
      var r := ProcessFrom(data, env.base, env.length, index + t.record.Length(), EventLog.After(t.record, header));
      assert seen + [t.record] + r.records == seen + ([t.record] + r.records);
    } else {
      assert seen + [] == seen;
    }
  }

  /** A turn in terms of the bytes it looks at. */
  lemma TurnParts(data: Blob, env: Env, index: nat, header: Option<SpecIdHeader>)
    ensures var t := TurnAt(data, env.base, env.length, index, header);
      if index >= env.length then t == Halt(header, None)
      else if index + 8 > |data| then t == Halt(header, Some(AssertionError))
      else if FromLe(data[index..index + 4]) == LOG_END then t == Halt(header, None)
      else if FromLe(data[index + 4..index + 8]) == EV_NO_ACTION then
        var p := ParseSpecId(data[index..], env.base + index);
        t == if p.error.Some? then Halt(Some(p.header), p.error) else Got(HeaderRecord(p.header))
      else
        var e := ParseEntry(data[index..], env.base + index, header);
        t == if e.Success? then Got(EventRecord(e.value)) else Halt(header, Some(e.error))
  {
  }
}
