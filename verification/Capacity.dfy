/** Enrolment from the outside: images laid out as the specifications say, and the space that a run
    needs, both known before anything is run. */
module Capacity {
  import opened Bytes
  import opened Text
  import opened Guid
  import opened WellKnownGuids
  import opened Variables
  import opened StoreCodec
  import opened NormalForm
  import opened StoreOps
  import opened Enrolment
  import opened SecureBoot

  // ---- the space a run needs ----

  /** The length of the padded record of a request. */
  function RequestLength(r: Request): nat { Align4(HEADER_SIZE + |Str2Blob(r.name)| + |r.data|) }

  /** The most that a command can add to the region. */
  function Growth(c: Command): nat {
    if c.kind.Delete? || RequestOf(c).Failure? then 0 else RequestLength(RequestOf(c).value)
  }

  function TotalGrowth(cs: seq<Command>): nat { if cs == [] then 0 else Growth(cs[0]) + TotalGrowth(cs[1..]) }

  lemma {:induction false} LengthConcat(a: seq<Variable>, b: seq<Variable>)
    ensures TotalLength(a + b) == TotalLength(a) + TotalLength(b)
  {
    if a == [] {
      assert a + b == b;
    } else {
      assert (a + b)[1..] == a[1..] + b;
      LengthConcat(a[1..], b);
    }
  }

  lemma LengthCons(v: Variable, vs: seq<Variable>)
    ensures TotalLength([v] + vs) == RecordLength(v) + TotalLength(vs)
  {
    hide RecordLength;
    assert ([v] + vs)[1..] == vs;
  }

  lemma LengthSplit(vs: seq<Variable>, i: nat)
    requires i < |vs|
    ensures TotalLength(vs) == TotalLength(vs[..i] + vs[i + 1..]) + RecordLength(vs[i])
  {
    hide RecordLength, TotalLength;
    var before, v, after := vs[..i], vs[i], vs[i + 1..];
    assert vs == before + ([v] + after);
    LengthConcat(before, [v] + after);
    LengthCons(v, after);
    LengthConcat(before, after);
  }

  /** An addition needs at most its own record, and exactly that under a new key. */
  lemma AddGrows(vs: seq<Variable>, r: Request)
    requires AddVariable(vs, r).Success?
    ensures TotalLength(AddVariable(vs, r).value) <= TotalLength(vs) + RequestLength(r)
    ensures Find(vs, KeyFor(r.name, r.guid)) < 0 ==>
      TotalLength(AddVariable(vs, r).value) == TotalLength(vs) + RequestLength(r)
  {
    hide Find, Str2Guid, Str2Blob, Lower, TimeBlob, TotalLength;
    var i := Find(vs, KeyFor(r.name, r.guid));
    var out := AddVariable(vs, r).value;
    if i >= 0 {
      LengthSplit(vs, i);
      LengthSplit(out, i);
      assert out[..i] + out[i + 1..] == vs[..i] + vs[i + 1..];
    } else {
      LengthSplit(out, |vs|);
      assert out[..|vs|] + out[|vs| + 1..] == vs;
    }
  }

  lemma EnrollGrows(vs: seq<Variable>, c: Command)
    requires Enroll(vs, c).Done? && !c.kind.Delete?
    ensures TotalLength(Enroll(vs, c).value) <= TotalLength(vs) + Growth(c)
  {
    hide RequestOf, AddVariable, RequestLength, TotalLength;
    AddGrows(vs, RequestOf(c).value);
  }

  /** A command adds at most its growth. */
  lemma ApplyGrows(vs: seq<Variable>, c: Command)
    ensures TotalLength(Expected(vs, c)) <= TotalLength(vs) + Growth(c)
  {
    hide Find, Enroll, KeyFor, TotalLength, RecordLength, Growth, Accepted;
    var i := Find(vs, KeyFor(c.name, c.guid));
    if i >= 0 { LengthSplit(vs, i); }
    var from := if c.kind.Update? && i >= 0 then vs[..i] + vs[i + 1..] else vs;
    if !c.kind.Delete? && Enroll(from, c).Done? { EnrollGrows(from, c); }
  }

  lemma {:induction false} LengthAligned(vs: seq<Variable>)
    ensures TotalLength(vs) % 4 == 0
  {
    hide RecordLength;
    if vs != [] {
      RecordAligned(vs[0]);
      LengthAligned(vs[1..]);
    }
  }

  lemma RecordAligned(v: Variable)
    ensures RecordLength(v) % 4 == 0
  {
  }

  /** Space for total bytes of records, and for the reader to look past them wherever they end. */
  predicate Ample(lay: Layout, length: nat, total: nat) {
    STORE_HEADER + total <= lay.storeSize
    && (lay.storeSize % 4 == 1 ==> lay.hdrLen + lay.storeSize < Min(lay.fvSize, length))
  }

  /** Space for the records present and one more per command is enough for every intermediate list of
      every run. */
  lemma {:induction false} SpaceIsEnough(vs: seq<Variable>, cs: seq<Command>, lay: Layout, length: nat)
    requires Ample(lay, length, TotalLength(vs) + TotalGrowth(cs))
    ensures RunFits(vs, cs, lay, length)
    decreases |cs|
  {
    hide Accepted, Expected, Growth, Apply, TotalLength;
    if cs != [] {
      var next := Expected(vs, cs[0]);
      ApplyGrows(vs, cs[0]);
      LengthAligned(next);
      SpaceIsEnough(next, cs[1..], lay, length);
    }
  }

  /** Commands that are never turned down for their arguments or sizes. */
  predicate Acceptable(cs: seq<Command>) {
    forall i :: 0 <= i < |cs| ==>
      ArgsAccepted(cs[i]) && RequestOf(cs[i]).Success? && RequestPacks([], RequestOf(cs[i]).value)
  }

  /** Additions under pairwise different keys that the list does not hold yet. */
  predicate NewKeys(vs: seq<Variable>, cs: seq<Command>) {
    DistinctAdds(cs)
    && forall i :: 0 <= i < |cs| ==>
         var r := RequestOf(cs[i]).value; Find(vs, StoredKey(r)) < 0 && Str2Guid(r.guid).Success?
  }

  lemma NewIsAccepted(vs: seq<Variable>, cs: seq<Command>)
    requires Acceptable(cs) && NewKeys(vs, cs) && cs != [] && Apply(vs, cs[0]).Done?
    ensures Accepted(vs, cs[0])
  {
    hide ArgsAccepted, RequestOf, Find, Str2Guid, Str2Blob, Lower, Apply;
  }

  lemma NewAdd(vs: seq<Variable>, cs: seq<Command>)
    requires NewKeys(vs, cs) && cs != []
    ensures Apply(vs, cs[0]).Done? && TotalLength(Apply(vs, cs[0]).value) == TotalLength(vs) + Growth(cs[0])
    ensures NewKeys(Apply(vs, cs[0]).value, cs[1..])
  {
    hide Find, RequestOf, Str2Guid, Str2Blob, Lower, TimeBlob, TotalLength;
    var r := RequestOf(cs[0]).value;
    AddGrows(vs, r);
    var next := Apply(vs, cs[0]).value;
    var rest := cs[1..];
    assert next == vs + [Created(r, Str2Guid(r.guid).value)];
    assert forall i :: 0 <= i < |rest| ==> rest[i] == cs[i + 1];
    assert forall i :: 0 <= i < |rest| ==> StoredKey(RequestOf(rest[i]).value) != StoredKey(r);
    assert KeyOf(next[|vs|]) == StoredKey(r);
  }

  /** The bound is exact for additions under new keys: they fit if and only if all records together do. */
  lemma {:induction false} NewKeysFit(vs: seq<Variable>, cs: seq<Command>, lay: Layout, length: nat)
    requires Acceptable(cs) && NewKeys(vs, cs) && cs != []
    ensures RunFits(vs, cs, lay, length) <==> RoomFor(lay, length, TotalLength(vs) + TotalGrowth(cs))
    decreases |cs|
  {
    hide ArgsAccepted, RequestPacks, Growth, Apply, TotalLength, NewKeys, Accepted, Packs;
    NewAdd(vs, cs);
    NewIsAccepted(vs, cs);
    var next, rest := Apply(vs, cs[0]).value, cs[1..];
    assert Expected(vs, cs[0]) == next;
    if rest != [] {
      assert Acceptable(rest) by { assert forall i :: 0 <= i < |rest| ==> rest[i] == cs[i + 1]; }
      NewKeysFit(next, rest, lay, length);
      GrowthIsPositive(next, rest);
    } else {
      assert TotalGrowth(rest) == 0;
    }
  }

  lemma GrowthIsPositive(vs: seq<Variable>, cs: seq<Command>)
    requires NewKeys(vs, cs) && cs != []
    ensures TotalGrowth(cs) >= HEADER_SIZE
  {
    hide RequestOf, Str2Guid, Str2Blob, Find;
  }

  // ---- images laid out as the specifications say ----

  /** A volume header with its block map, a store header, the records, 0xFF up to the end of the store,
      and whatever follows. */
  datatype Firmware = Firmware(
    volume: VolumeHeader, blocks: Blob, store: StoreHeader, vars: seq<Variable>, rest: Blob)
  {
    predicate Consistent() {
      && Guid2Str(volume.guid) == NVRAM_GUID && Guid2Str(store.signature) == TIME_BASED_GUID
      && volume.hdrLen == FV_HEADER + |blocks| && volume.hdrLen + store.size <= volume.size
      && AllWellFormed(vars) && STORE_HEADER + |EncodeAll(vars)| <= store.size
    }

    function Free(): nat
      requires Consistent()
    {
      store.size - STORE_HEADER - |EncodeAll(vars)|
    }

    function Image(): Blob
      requires Consistent()
    {
      EncodeVolume(volume) + blocks + EncodeStore(store) + (EncodeAll(vars) + Fill(0xff, Free()) + rest)
    }

    function Place(): Layout { Layout(volume.hdrLen, volume.size, store.size) }
  }

  lemma ImageParts(f: Firmware)
    requires f.Consistent()
    ensures SoundLayout(f.Image(), f.Place())
    ensures |f.Image()| == f.volume.hdrLen + f.store.size + |f.rest|
    ensures var raw := Raw(f.Image(), f.Place()); var tail := Fill(0xff, f.Free()) + f.rest;
      raw == EncodeStore(f.store) + EncodeAll(f.vars)
             + tail[..Min(f.volume.size, |f.Image()|) - f.volume.hdrLen - STORE_HEADER - |EncodeAll(f.vars)|]
  {
    hide EncodeVolume, EncodeStore, EncodeAll, WellFormed, Packable, Guid2Str;
    var head, store, recs := EncodeVolume(f.volume) + f.blocks, EncodeStore(f.store), EncodeAll(f.vars);
    var tail := Fill(0xff, f.Free()) + f.rest;
    var img := f.Image();
    assert img == head + store + recs + tail;
    var n := Min(f.volume.size, |img|);
    var cut := store + recs + tail[..n - |head| - |store| - |recs|];
    assert img[..n] == head + cut;
    assert (head + cut)[|head|..] == cut;
  }

  /** Such an image reads as exactly its records if and only if a store with one free byte is not at the
      very end of the volume. */
  lemma ImageReads(f: Firmware)
    requires f.Consistent()
    ensures ReadsAs(f.Image(), f.Place(), f.vars)
       <==> (f.Free() == 1 ==> f.volume.hdrLen + f.store.size < Min(f.volume.size, |f.Image()|))
  {
    hide EncodeVolume, EncodeStore, EncodeAll, WellFormed, Packable, Framed, AllDecode, Guid2Str, Locate, Raw, ReadVars;
    ImageParts(f);
    WellFormedParts(f.vars);
    var recs := EncodeAll(f.vars);
    LocateInverse(f.volume, f.blocks, f.store, recs + Fill(0xff, f.Free()) + f.rest);
    var n := Min(f.volume.size, |f.Image()|) - f.volume.hdrLen - STORE_HEADER - |recs|;
    var tail := (Fill(0xff, f.Free()) + f.rest)[..n];
    ReadBack(Raw(f.Image(), f.Place()), EncodeStore(f.store), f.vars, tail, f.store.size);
  }

  /** End to end: for every image laid out as the specifications say, holding any variables under
      different keys, and every configuration whose records fit beside them, do_var_enroll succeeds
      exactly when the configuration is acceptable, and leaves an image of the same length that reads, in
      the same layout, as those variables with the configured ones set in order, unless SecureBootEnable was
      enrolled under a GUID with a tail. */
  lemma EnrolFirmware(f: Firmware, cfg: Config, clock: Clock)
    requires f.Consistent() && Unique(f.vars)
    requires Ample(f.Place(), |f.Image()|, |EncodeAll(f.vars)| + TotalGrowth(StepsOf(cfg, clock)))
    ensures var cs := StepsOf(cfg, clock);
      && Passes(f.Image(), cs).Success?
      && var p, out := Passes(f.Image(), cs).value, RunAccepted(f.vars, cs).vars;
         p.ok == ConfigAccepted(cfg) && |p.image| == |f.Image()|
         && (ReadsAs(p.image, f.Place(), out) <==> (p.ok ==> |cfg.enable.guid| == 36))
         && (p.ok ==> RunList(f.vars, cs) == Done(out) && EnrolsConfig(f.vars, cfg, clock, out))
  {
    hide StepsOf, Passes, RunList, RunFits, Unique, EnrolsConfig, ConfigAccepted, EncodeAll, TotalLength, RunAccepted,
      TotalGrowth, WellFormed, ReadsAs, Packable, Guid2Str, EncodeVolume, EncodeStore;
    ImageReads(f);
    EncodedLength(f.vars);
    SpaceIsEnough(f.vars, StepsOf(cfg, clock), f.Place(), |f.Image()|);
    WholeRun(f.Image(), f.Place(), f.vars, cfg, clock);
  }

  lemma {:induction false} GrowthAligned(cs: seq<Command>)
    ensures TotalGrowth(cs) % 4 == 0
  {
    hide RequestOf, Str2Blob;
    if cs != [] { GrowthAligned(cs[1..]); }
  }

  /** Every configuration whose records fit a 32-bit store has firmware that meets these conditions: a fresh
      image with an empty store of just the size needed. */
  lemma FreshFirmware(cfg: Config, clock: Clock) returns (f: Firmware)
    requires STORE_HEADER + TotalGrowth(StepsOf(cfg, clock)) < WORD
    ensures f.Consistent() && f.vars == [] && Unique(f.vars)
    ensures Ample(f.Place(), |f.Image()|, |EncodeAll(f.vars)| + TotalGrowth(StepsOf(cfg, clock)))
  {
    var need := TotalGrowth(StepsOf(cfg, clock));
    GrowthAligned(StepsOf(cfg, clock));
    var nvram, timeBased := LayoutGuids();
    hide Guid2Str, TotalGrowth;
    var size := STORE_HEADER + need;
    f := Firmware(VolumeHeader(nvram, nvram, FV_HEADER + size, 0, FV_HEADER, 0, 0, 0, 0), [],
                  StoreHeader(timeBased, size, 0, 0, 0, 0), [], []);
    assert EncodeAll(f.vars) == [];
  }

  /** The two GUIDs that locate the store are printed from 16 bytes. */
  lemma LayoutGuids() returns (nvram: Bytes16, timeBased: Bytes16)
    ensures Guid2Str(nvram) == NVRAM_GUID && Guid2Str(timeBased) == TIME_BASED_GUID
  {
    hide GuidShape, VersionAndVariant, PackFields, Guid2Str, Lower;
    NvramShape();
    NvramIsLower();
    TimeBasedShape();
    TimeBasedIsLower();
    assert NVRAM_GUID[..36] == NVRAM_GUID && TIME_BASED_GUID[..36] == TIME_BASED_GUID;
    CanonicalAccepted(NVRAM_GUID);
    CanonicalAccepted(TIME_BASED_GUID);
    Str2GuidInverse(NVRAM_GUID);
    Str2GuidInverse(TIME_BASED_GUID);
    nvram, timeBased := Str2Guid(NVRAM_GUID).value, Str2Guid(TIME_BASED_GUID).value;
  }
}
