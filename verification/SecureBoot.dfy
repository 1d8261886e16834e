/** do_var_enroll as a whole: what the enrolled image holds. */
module SecureBoot {
  import opened Sequences
  import opened Outcomes
  import opened Bytes
  import opened Text
  import opened Guid
  import opened WellKnownGuids
  import opened Variables
  import opened StoreCodec
  import opened NormalForm
  import opened StoreOps
  import opened Enrolment
  import SignatureDb
  import opened Effects

  // ---- a run of additions on the map ----

  function StoredKey(r: Request): Key { KeyFor(r.name, r.guid) }

  /** The variable carries what the request asked for. */
  predicate Stored(v: Variable, r: Request) {
    v.attributes == r.attributes && v.timeStamp == TimeBlob(r.time) && v.data == r.data && v.dataSize == r.size
  }

  /** Additions that reach the store under pairwise different keys. */
  predicate DistinctAdds(cs: seq<Command>) {
    && (forall i :: 0 <= i < |cs| ==> cs[i].kind.Add? && RequestOf(cs[i]).Success? && !RequestOf(cs[i]).value.append)
    && (forall i, j :: 0 <= i < j < |cs| ==>
          StoredKey(RequestOf(cs[i]).value) != StoredKey(RequestOf(cs[j]).value))
  }

  /** The keys under which a list of additions is stored. */
  predicate IsAdded(cs: seq<Command>, k: Key)
    requires DistinctAdds(cs)
  {
    exists i :: 0 <= i < |cs| && StoredKey(RequestOf(cs[i]).value) == k
  }

  lemma OneAdd(m: map<Key, Variable>, c: Command)
    requires c.kind.Add? && RequestOf(c).Success? && !RequestOf(c).value.append && MapApply(m, c).Done?
    ensures var r, out := RequestOf(c).value, MapApply(m, c).value;
      StoredKey(r) in out && Stored(out[StoredKey(r)], r)
      && forall k :: k != StoredKey(r) ==> (k in out <==> k in m) && (k in m ==> out[k] == m[k])
  {
    hide RequestOf, Str2Guid, Str2Blob, Lower, TimeBlob;
  }

  /** After a run of such additions each of them is in the map and all other keys are as before. */
  lemma {:induction false} AddsAreStored(m: map<Key, Variable>, cs: seq<Command>)
    requires DistinctAdds(cs) && RunMap(m, cs).Done?
    ensures var out := RunMap(m, cs).value;
      && (forall i :: 0 <= i < |cs| ==>
            var r := RequestOf(cs[i]).value; StoredKey(r) in out && Stored(out[StoredKey(r)], r))
      && (forall k :: !IsAdded(cs, k) ==> (k in out <==> k in m) && (k in m ==> out[k] == m[k]))
    decreases |cs|
  {
    hide RequestOf, MapApply, Stored, StoredKey;
    if cs != [] {
      var c := cs[0];
      var r := RequestOf(c).value;
      assert DistinctAdds(cs[1..]);
      AddIsNotRefused(m, c);
      OneAdd(m, c);
      var mid := MapApply(m, c).value;
      AddsAreStored(mid, cs[1..]);
      var out := RunMap(mid, cs[1..]).value;
      assert !IsAdded(cs[1..], StoredKey(r));
      forall i | 0 <= i < |cs|
        ensures StoredKey(RequestOf(cs[i]).value) in out
        ensures Stored(out[StoredKey(RequestOf(cs[i]).value)], RequestOf(cs[i]).value)
      {
        if i > 0 { assert cs[i] == cs[1..][i - 1]; }
      }
      forall k | !IsAdded(cs, k) ensures !IsAdded(cs[1..], k) && k != StoredKey(r) {
        assert forall i :: 0 <= i < |cs| - 1 ==> cs[1..][i] == cs[i + 1];
      }
    }
  }

  lemma AddIsNotRefused(m: map<Key, Variable>, c: Command)
    requires c.kind.Add?
    ensures !MapApply(m, c).Refused?
  {
  }

  // ---- the five names have different keys ----

  lemma LowerNames()
    ensures Lower("PK") == "pk" && Lower("KEK") == "kek" && Lower("db") == "db" && Lower("dbx") == "dbx"
  {
    assert "PK"[0] == 'P' && "PK"[1] == 'K';
    assert "KEK"[0] == 'K' && "KEK"[1] == 'E' && "KEK"[2] == 'K';
    assert Lower("PK") == ['p', 'k'];
    assert Lower("KEK") == ['k', 'e', 'k'];
  }

  /** The names as stored, in the order of the steps. */
  const NAMES: seq<string> := ["PK", "KEK", "db", "dbx", "SecureBootEnable"]

  lemma NamesDiffer(i: nat, j: nat)
    requires i < j < 5
    ensures Str2Blob(NAMES[i]) != Str2Blob(NAMES[j])
  {
    hide Str2Blob;
    NamesAreKeys(NAMES[i], NAMES[j]);
    assert NAMES[i] != NAMES[j] by {
      assert |NAMES[i]| == |NAMES[j]| ==> NAMES[i][0] != NAMES[j][0];
    }
  }

  /** Which of the five names a step enrols. */
  function Rank(c: Command): (r: nat)
    ensures r < 5
  {
    if c.name == "PK" then 0 else if c.name == "KEK" then 1 else if c.name == "db" then 2
    else if c.name == "dbx" then 3 else 4
  }

  predicate IsStep(c: Command) {
    c.kind.Add? && c.name == NAMES[Rank(c)] && (Rank(c) == 4 ==> c.attributes == Some(3))
  }

  /** A step is stored under its own name and overwrites. */
  lemma StepRequest(c: Command)
    requires IsStep(c) && RequestOf(c).Success?
    ensures RequestOf(c).value.name == NAMES[Rank(c)] && !RequestOf(c).value.append
  {
    hide CertList, ParseTime, AuthSize, TimeFor, Lower;
    LowerNames();
    assert |Lower("SecureBootEnable")| == 16;
  }

  /** The entry of the configuration that a step of the given rank comes from. */
  function Entry(cfg: Config, rank: nat): Option<Source> {
    if rank == 0 then cfg.pk else if rank == 1 then cfg.kek else if rank == 2 then cfg.db
    else if rank == 3 then cfg.dbx else if rank == 4 then Some(cfg.enable) else None
  }

  /** The clock reading of a step. */
  function Reading(clock: Clock, rank: nat): EfiTime {
    if rank == 0 then clock.pk else if rank == 1 then clock.kek else if rank == 2 then clock.db
    else if rank == 3 then clock.dbx else clock.enable
  }

  /** A step carries the GUID, the file and the clock reading of its entry. */
  predicate IsStepOf(cfg: Config, clock: Clock, c: Command) {
    IsStep(c) && Entry(cfg, Rank(c)) == Some(Source(c.guid, c.file)) && c.now == Reading(clock, Rank(c))
  }

  /** The step of an entry, if it is configured. */
  function StepOf(cfg: Config, clock: Clock, rank: nat): seq<Command>
    requires rank < 5
  {
    if rank == 0 then StepFor("PK", cfg.pk, clock.pk)
    else if rank == 1 then StepFor("KEK", cfg.kek, clock.kek)
    else if rank == 2 then StepFor("db", cfg.db, clock.db)
    else if rank == 3 then StepFor("dbx", cfg.dbx, clock.dbx)
    else [EnableStep(cfg, clock)]
  }

  lemma OneStep(cfg: Config, clock: Clock, rank: nat)
    requires rank < 5
    ensures var s := StepOf(cfg, clock, rank);
      |s| == (if Entry(cfg, rank).Some? then 1 else 0)
      && (s != [] ==> IsStepOf(cfg, clock, s[0]) && Rank(s[0]) == rank)
  {
  }

  /** The steps of the entries in front of a rank. */
  function StepsBelow(cfg: Config, clock: Clock, n: nat): seq<Command>
    requires n <= 5
  {
    if n == 0 then [] else StepsBelow(cfg, clock, n - 1) + StepOf(cfg, clock, n - 1)
  }

  /** A list of steps in the order of their ranks, one for each entry below n that is configured, with that
      entry's GUID and file. */
  ghost predicate Ordered(cfg: Config, clock: Clock, cs: seq<Command>, n: nat) {
    && (forall i :: 0 <= i < |cs| ==> IsStepOf(cfg, clock, cs[i]) && Rank(cs[i]) < n)
    && (forall i, j :: 0 <= i < j < |cs| ==> Rank(cs[i]) < Rank(cs[j]))
    && (forall rank :: 0 <= rank < n && Entry(cfg, rank).Some? ==> exists i :: 0 <= i < |cs| && Rank(cs[i]) == rank)
  }

  lemma OrderedSkip(cfg: Config, clock: Clock, cs: seq<Command>, n: nat)
    requires Ordered(cfg, clock, cs, n) && Entry(cfg, n).None?
    ensures Ordered(cfg, clock, cs, n + 1)
  {
    hide Rank, IsStepOf, Entry;
    forall rank | 0 <= rank < n + 1 && Entry(cfg, rank).Some? ensures exists i :: 0 <= i < |cs| && Rank(cs[i]) == rank {
      assert rank < n;
    }
  }

  lemma OrderedMore(cfg: Config, clock: Clock, cs: seq<Command>, c: Command)
    requires Ordered(cfg, clock, cs, Rank(c)) && IsStepOf(cfg, clock, c)
    ensures Ordered(cfg, clock, cs + [c], Rank(c) + 1)
  {
    hide Rank, IsStepOf, Entry;
    var out := cs + [c];
    forall rank | 0 <= rank <= Rank(c) && Entry(cfg, rank).Some?
      ensures exists i :: 0 <= i < |out| && Rank(out[i]) == rank
    {
      if rank < Rank(c) {
        var i :| 0 <= i < |cs| && Rank(cs[i]) == rank;
        assert out[i] == cs[i];
      } else {
        assert out[|cs|] == c;
      }
    }
  }

  lemma {:induction false} BelowIsOrdered(cfg: Config, clock: Clock, n: nat)
    requires n <= 5
    ensures Ordered(cfg, clock, StepsBelow(cfg, clock, n), n)
  {
    hide StepOf, Rank, IsStepOf, Entry, Ordered;
    if n > 0 {
      BelowIsOrdered(cfg, clock, n - 1);
      OneStep(cfg, clock, n - 1);
      var before, s := StepsBelow(cfg, clock, n - 1), StepOf(cfg, clock, n - 1);
      if s == [] {
        assert before + s == before;
        OrderedSkip(cfg, clock, before, n - 1);
      } else {
        assert s == [s[0]];
        OrderedMore(cfg, clock, before, s[0]);
      }
    } else {
      NothingBelow(cfg, clock);
    }
  }

  lemma NothingBelow(cfg: Config, clock: Clock)
    ensures Ordered(cfg, clock, [], 0)
  {
    hide Rank, IsStepOf, Entry;
  }

  /** The steps are PK, KEK, db, dbx and SecureBootEnable in that order, exactly those configured, each with
      its entry's GUID, file and clock reading. */
  lemma StepsAreOrdered(cfg: Config, clock: Clock)
    ensures Ordered(cfg, clock, StepsOf(cfg, clock), 5)
  {
    hide StepFor, EnableStep, Rank, IsStepOf, Entry;
    StepsAreBelow(cfg, clock);
    BelowIsOrdered(cfg, clock, 5);
  }

  lemma StepsAreBelow(cfg: Config, clock: Clock)
    ensures StepsBelow(cfg, clock, 5) == StepsOf(cfg, clock)
  {
    hide StepFor, EnableStep;
    var one := StepOf(cfg, clock, 0);
    assert StepsBelow(cfg, clock, 0) == [] && [] + one == one;
    assert StepsBelow(cfg, clock, 1) == one;
    assert StepsBelow(cfg, clock, 3) == one + StepOf(cfg, clock, 1) + StepOf(cfg, clock, 2);
  }

  lemma StepsAreDistinct(cfg: Config, clock: Clock)
    requires forall i :: 0 <= i < |StepsOf(cfg, clock)| ==> RequestOf(StepsOf(cfg, clock)[i]).Success?
    ensures DistinctAdds(StepsOf(cfg, clock))
  {
    hide RequestOf, Str2Blob, StepsOf, Lower;
    var cs := StepsOf(cfg, clock);
    StepsAreOrdered(cfg, clock);
    forall i | 0 <= i < |cs|
      ensures RequestOf(cs[i]).value.name == NAMES[Rank(cs[i])] && !RequestOf(cs[i]).value.append
    {
      StepRequest(cs[i]);
    }
    forall i, j | 0 <= i < j < |cs|
      ensures StoredKey(RequestOf(cs[i]).value) != StoredKey(RequestOf(cs[j]).value)
    {
      NamesDiffer(Rank(cs[i]), Rank(cs[j]));
    }
  }

  /** A run of additions that does not raise has built every request. */
  lemma {:induction false} DoneRequests(vs: seq<Variable>, cs: seq<Command>)
    requires RunList(vs, cs).Done? && forall i :: 0 <= i < |cs| ==> cs[i].kind.Add?
    ensures forall i :: 0 <= i < |cs| ==> RequestOf(cs[i]).Success?
    decreases |cs|
  {
    hide RequestOf, StoreOps.AddVariable;
    if cs != [] {
      DoneRequests(Apply(vs, cs[0]).value, cs[1..]);
      assert forall i :: 1 <= i < |cs| ==> cs[i] == cs[1..][i - 1];
    }
  }

  /** What a caller can check of an entry before the run: its GUID passes check_args, its file exists and fits
      a 32-bit size; the owner GUID of a certificate and the GUID of SecureBootEnable have no tail that
      uuid.UUID rejects; the dbx file has an authentication header, and it ends inside the file. */
  predicate EntryAccepted(s: Source, rank: nat) {
    IsGuid(s.guid) && s.file.Some?
    && (rank != 3 ==> TailIgnored(s.guid[36..]))
    && (rank <= 2 ==> 28 + 16 + |s.file.value| < WORD)
    && (rank == 3 ==> |s.file.value| >= 20 && 0 <= |s.file.value| - AuthSize(s.file.value) < WORD)
    && (rank == 4 ==> |s.file.value| < WORD)
  }

  predicate StepAccepted(c: Command) { EntryAccepted(Source(c.guid, c.file), Rank(c)) }

  lemma CertListAccepted(cert: Blob, owner: string)
    requires IsGuid(owner)
    ensures CertList(cert, owner).Success? <==> TailIgnored(owner[36..]) && 28 + 16 + |cert| < WORD
  {
    hide TailIgnored, PackFields, IsGuid;
    SignatureDb.ConstantsAccepted();
  }

  lemma StepIsReserved(c: Command)
    requires IsStep(c)
    ensures Reserved(c.name) <==> Rank(c) <= 3
    ensures Lower(c.name) == "dbx" <==> Rank(c) == 3
  {
    LowerNames();
    assert |Lower("SecureBootEnable")| == 16;
  }

  /** check_args looks at the GUID and the file of a step. */
  lemma StepArgs(c: Command)
    requires IsStep(c)
    ensures ArgsAccepted(c) <==> IsGuid(c.guid) && c.file.Some?
  {
    hide Reserved, IsGuid;
    StepIsReserved(c);
  }

  /** The request of a step and the GUID it is stored under. */
  lemma StepBuilds(c: Command)
    requires IsStep(c) && IsGuid(c.guid) && c.file.Some?
    ensures RequestOf(c).Success? <==>
      && (Rank(c) <= 2 ==> TailIgnored(c.guid[36..]) && 28 + 16 + |c.file.value| < WORD)
      && (Rank(c) == 3 ==> |c.file.value| >= 20)
    ensures RequestOf(c).Success? ==>
      var r := RequestOf(c).value;
      && 0 <= r.attributes < WORD
      && r.size == (if Rank(c) <= 2 then 28 + 16 + |c.file.value|
                    else if Rank(c) == 3 then |c.file.value| - AuthSize(c.file.value) else |c.file.value|)
      && if Rank(c) == 4 then r.guid == c.guid
         else r.guid == EFI_GLOBAL_VARIABLE || r.guid == IMAGE_SECURITY_DATABASE
  {
    hide CertList, ParseTime, AuthSize, TimeFor, Lower, IsGuid, TailIgnored;
    LowerNames();
    assert |Lower("SecureBootEnable")| == 16;
    CertListAccepted(c.file.value, c.guid);
  }

  lemma NameIsShort(i: nat)
    requires i < 5
    ensures |Str2Blob(NAMES[i])| < WORD
  {
    hide Str2Blob, IsAscii;
    ReservedNames();
    NameBytes(NAMES[i]);
  }

  /** A step whose key is in the store, or whose GUID is accepted, is done. */
  lemma StepFinds(vs: seq<Variable>, r: Request)
    requires AllWellFormed(vs) && IsGuid(r.guid)
    ensures Find(vs, KeyFor(r.name, r.guid)) >= 0 || Str2Guid(r.guid).Success? <==> TailIgnored(r.guid[36..])
  {
    hide Find, KeyFor, WellFormed, IsGuid, TailIgnored, PackFields, IsAscii;
    var i := Find(vs, KeyFor(r.name, r.guid));
    if i >= 0 {
      assert vs[i] in vs;
      FoundIsCanonical(vs[i], r);
      CanonicalAccepted(r.guid);
    }
  }

  lemma ConstantGuids()
    ensures IsGuid(EFI_GLOBAL_VARIABLE) && TailIgnored(EFI_GLOBAL_VARIABLE[36..])
    ensures IsGuid(IMAGE_SECURITY_DATABASE) && TailIgnored(IMAGE_SECURITY_DATABASE[36..])
  {
    hide PackFields, TailIgnored, IsGuid;
    SignatureDb.ConstantsAccepted();
  }

  /** A step is accepted exactly when its entry is, whatever the store holds. */
  lemma StepOutcome(vs: seq<Variable>, c: Command)
    requires IsStep(c) && AllWellFormed(vs)
    ensures Accepted(vs, c) <==> StepAccepted(c)
    ensures !Apply(vs, c).Refused?
  {
    hide RequestOf, Find, Str2Guid, IsGuid, ArgsAccepted, KeyFor, Apply, TailIgnored, AuthSize, Rank, AllWellFormed,
      Str2Blob;
    StepArgs(c);
    CommandOutcome(vs, c);
    if ArgsAccepted(c) {
      StepBuilds(c);
      if RequestOf(c).Success? {
        var r := RequestOf(c).value;
        ConstantGuids();
        StepFinds(vs, r);
        StepRequest(c);
        NameIsShort(Rank(c));
      }
    }
  }

  /** An accepted step leaves the file readable, unless it is SecureBootEnable under a GUID with a tail. */
  predicate StepFaithful(c: Command) { Rank(c) == 4 ==> |c.guid| == 36 }

  lemma StepIsFaithful(vs: seq<Variable>, c: Command)
    requires IsStep(c) && AllWellFormed(vs) && Accepted(vs, c)
    ensures Faithful(vs, c) <==> StepFaithful(c)
  {
    hide Reserved, IsAscii, DbxInRange, AllWellFormed, Apply, ArgsAccepted, Packs, IsGuid, TailIgnored;
    StepOutcome(vs, c);
    StepIsReserved(c);
    ReservedNames();
    StepInRange(c);
    assert IsAscii(c.name);
    assert Rank(c) == 4 ==> AttributesOf(c) == 3;
    assert SoundCommand(c) <==> StepFaithful(c);
  }

  lemma StepInRange(c: Command)
    requires IsStep(c) && StepAccepted(c)
    ensures DbxInRange(c)
  {
    hide AuthSize, IsGuid, TailIgnored;
    StepIsReserved(c);
  }

  predicate AllAccepted(cs: seq<Command>) {
    forall i :: 0 <= i < |cs| ==> StepAccepted(cs[i])
  }

  /** Steps of which only the last can be SecureBootEnable. */
  predicate AllSteps(cs: seq<Command>) {
    forall i :: 0 <= i < |cs| ==> IsStep(cs[i]) && (i < |cs| - 1 ==> Rank(cs[i]) < 4)
  }

  lemma KeepsWellFormed(vs: seq<Variable>, c: Command)
    requires AllWellFormed(vs) && Faithful(vs, c)
    ensures AllWellFormed(Expected(vs, c))
  {
    hide Apply, SoundCommand, WellFormed, Packable, Packs, ArgsAccepted;
    if Accepted(vs, c) && Apply(vs, c).Done? {
      WellFormedSizesExact(vs);
      PacksExactly(vs, c);
      WritesWellFormed(vs, c);
    }
  }

  /** Whatever the store holds: the run of the steps is completed exactly when every step is accepted, every
      step but the last leaves the file readable, and the last does unless it has a GUID with a tail. */
  lemma {:induction false} RunOutcome(vs: seq<Variable>, cs: seq<Command>)
    requires AllSteps(cs) && AllWellFormed(vs) && cs != []
    ensures RunAccepted(vs, cs).ok <==> AllAccepted(cs)
    ensures FaithfulBefore(vs, cs)
    ensures RunFaithful(vs, cs) <==> (RunAccepted(vs, cs).ok ==> StepFaithful(cs[|cs| - 1]))
    decreases |cs|
  {
    hide IsStep, Accepted, Faithful, Expected, StepAccepted, AllWellFormed, Rank;
    var c, rest := cs[0], cs[1..];
    StepOutcome(vs, c);
    if Accepted(vs, c) {
      StepIsFaithful(vs, c);
      if rest != [] {
        assert forall i :: 0 <= i < |rest| ==> rest[i] == cs[i + 1];
        assert forall i :: 1 <= i < |cs| ==> cs[i] == rest[i - 1];
        KeepsWellFormed(vs, c);
        RunOutcome(Expected(vs, c), rest);
      }
    } else {
      NotAccepted(vs, c);
    }
  }

  // ---- the configuration ----

  /** The configurations that can be enrolled. */
  predicate ConfigAccepted(cfg: Config) {
    forall rank :: 0 <= rank < 5 && Entry(cfg, rank).Some? ==> EntryAccepted(Entry(cfg, rank).value, rank)
  }

  lemma ConfigIsSteps(cfg: Config, clock: Clock)
    ensures var cs := StepsOf(cfg, clock);
      && (AllAccepted(cs) <==> ConfigAccepted(cfg))
      && AllSteps(cs) && cs != [] && (StepFaithful(cs[|cs| - 1]) <==> |cfg.enable.guid| == 36)
  {
    StepsAreOrdered(cfg, clock);
    LastIsEnable(cfg, clock);
    hide StepsOf, EntryAccepted;
  }

  lemma LastIsEnable(cfg: Config, clock: Clock)
    ensures var cs := StepsOf(cfg, clock);
      cs != [] && Rank(cs[|cs| - 1]) == 4 && cs[|cs| - 1].guid == cfg.enable.guid
  {
    hide StepFor;
  }

  /** The final list holds what the steps built under their keys, and everything else as before. */
  ghost predicate Enrolled(before: seq<Variable>, cs: seq<Command>, after: seq<Variable>) {
    && Unique(after) && DistinctAdds(cs)
    && (forall i :: 0 <= i < |cs| ==>
          var r := RequestOf(cs[i]).value;
          StoredKey(r) in View(after) && Stored(View(after)[StoredKey(r)], r))
    && (forall k :: !IsAdded(cs, k) ==>
          (k in View(after) <==> k in View(before)) && (k in View(before) ==> View(after)[k] == View(before)[k]))
  }

  lemma RunEnrols(vs: seq<Variable>, cfg: Config, clock: Clock)
    requires Unique(vs) && RunList(vs, StepsOf(cfg, clock)).Done?
    ensures Enrolled(vs, StepsOf(cfg, clock), RunList(vs, StepsOf(cfg, clock)).value)
  {
    hide RequestOf, StepsOf, View, RunList, RunMap, StoredKey, Stored, Unique, DistinctAdds;
    var cs := StepsOf(cfg, clock);
    AllAdds(cfg, clock);
    DoneRequests(vs, cs);
    StepsAreDistinct(cfg, clock);
    RunRefines(vs, cs);
    AddsAreStored(View(vs), cs);
  }

  // ---- the enrolled variables, by name ----

  /** A certificate entry: an authenticated variable with the clock's time and the one certificate. */
  predicate HoldsCertificate(out: seq<Variable>, k: Key, s: Option<Source>, now: EfiTime) {
    s.Some? ==>
      var i := Find(out, k);
      && i >= 0 && s.value.file.Some?
      && out[i].attributes == 0x27 && out[i].timeStamp == TimeBlob(now) && out[i].dataSize == |out[i].data|
      && OneCertificate(out[i].data, s.value.file.value, s.value.guid)
  }

  /** The dbx entry: an authenticated variable with the time of the file and what follows its header. */
  predicate HoldsDbx(out: seq<Variable>, k: Key, s: Option<Source>) {
    s.Some? ==>
      var i := Find(out, k);
      && i >= 0 && s.value.file.Some? && |s.value.file.value| >= 20
      && var file := s.value.file.value;
         && out[i].attributes == 0x27 && out[i].timeStamp == file[..16] && out[i].dataSize == |out[i].data|
         && file[..Min(16 + FromLe(file[16..20]), |file|)] + out[i].data == file
  }

  /** SecureBootEnable: non-volatile with boot access, no time, the bytes of its file. */
  predicate HoldsEnable(out: seq<Variable>, k: Key, s: Source) {
    var i := Find(out, k);
    && i >= 0 && s.file.Some? && out[i].attributes == 3 && out[i].timeStamp == Fill(0, 16)
    && out[i].data == s.file.value && out[i].dataSize == |s.file.value|
  }

  /** Every configured variable is there under its name and vendor GUID, with what its entry says. */
  predicate HoldsConfig(out: seq<Variable>, cfg: Config, clock: Clock) {
    && HoldsCertificate(out, KeyFor("PK", "8BE4DF61-93CA-11d2-AA0D-00E098032B8C"), cfg.pk, clock.pk)
    && HoldsCertificate(out, KeyFor("KEK", "8BE4DF61-93CA-11d2-AA0D-00E098032B8C"), cfg.kek, clock.kek)
    && HoldsCertificate(out, KeyFor("db", "d719b2cb-3d3a-4596-a3bc-dad00e67656f"), cfg.db, clock.db)
    && HoldsDbx(out, KeyFor("dbx", "d719b2cb-3d3a-4596-a3bc-dad00e67656f"), cfg.dbx)
    && HoldsEnable(out, KeyFor("SecureBootEnable", cfg.enable.guid), cfg.enable)
  }

  /** The keys of the configured variables, in the order of enrolment. */
  function ConfigKeys(cfg: Config): seq<Key> {
    (if cfg.pk.Some? then [KeyFor("PK", "8BE4DF61-93CA-11d2-AA0D-00E098032B8C")] else [])
    + (if cfg.kek.Some? then [KeyFor("KEK", "8BE4DF61-93CA-11d2-AA0D-00E098032B8C")] else [])
    + (if cfg.db.Some? then [KeyFor("db", "d719b2cb-3d3a-4596-a3bc-dad00e67656f")] else [])
    + (if cfg.dbx.Some? then [KeyFor("dbx", "d719b2cb-3d3a-4596-a3bc-dad00e67656f")] else [])
    + [KeyFor("SecureBootEnable", cfg.enable.guid)]
  }

  function KeysOf(vs: seq<Variable>): (r: seq<Key>)
    ensures |r| == |vs| && forall i :: 0 <= i < |vs| ==> r[i] == StoreOps.KeyOf(vs[i])
  {
    seq(|vs|, i requires 0 <= i < |vs| => StoreOps.KeyOf(vs[i]))
  }

  /** The keys that are not there yet, in their order. */
  function Missing(ks: seq<Key>, there: seq<Key>): seq<Key> {
    if ks == [] then [] else (if ks[0] in there then [] else [ks[0]]) + Missing(ks[1..], there)
  }

  /** The list after do_var_enroll: the variables that were there stay in their places, the new ones follow in
      the order of enrolment, the configured ones hold what their entries say, and the others are unchanged. */
  ghost predicate EnrolsConfig(before: seq<Variable>, cfg: Config, clock: Clock, out: seq<Variable>) {
    && HoldsConfig(out, cfg, clock)
    && KeysOf(out) == KeysOf(before) + Missing(ConfigKeys(cfg), KeysOf(before))
    && (forall i :: 0 <= i < |before| && StoreOps.KeyOf(before[i]) !in ConfigKeys(cfg) ==> out[i] == before[i])
  }

  lemma StepIdentity(c: Command)
    requires IsStep(c)
    ensures Lower(c.name) == (if Rank(c) == 0 then "pk" else if Rank(c) == 1 then "kek" else if Rank(c) == 2 then "db"
                              else if Rank(c) == 3 then "dbx" else Lower("SecureBootEnable"))
    ensures Rank(c) == 4 ==> Lower(c.name) !in ["pk", "kek", "db", "dbx"]
  {
    LowerNames();
    assert |Lower("SecureBootEnable")| == 16;
  }

  /** The key of a step, from its entry. */
  function RankKey(cfg: Config, rank: nat): Key {
    if rank == 0 then KeyFor("PK", "8BE4DF61-93CA-11d2-AA0D-00E098032B8C")
    else if rank == 1 then KeyFor("KEK", "8BE4DF61-93CA-11d2-AA0D-00E098032B8C")
    else if rank == 2 then KeyFor("db", "d719b2cb-3d3a-4596-a3bc-dad00e67656f")
    else if rank == 3 then KeyFor("dbx", "d719b2cb-3d3a-4596-a3bc-dad00e67656f")
    else KeyFor("SecureBootEnable", cfg.enable.guid)
  }

  lemma StepKey(cfg: Config, clock: Clock, c: Command)
    requires IsStepOf(cfg, clock, c) && RequestOf(c).Success?
    ensures StoredKey(RequestOf(c).value) == RankKey(cfg, Rank(c))
  {
    hide RequestOf, KeyFor, IsPayload, IsTime, WantedSize, WantedAttributes;
    RequestAsks(c);
    StepIdentity(c);
    hide Lower;
  }

  /** The variable holds what an entry of the given rank says. */
  predicate EntryHeld(v: Variable, s: Source, rank: nat, now: EfiTime) {
    && s.file.Some? && v.dataSize == |v.data|
    && var file := s.file.value;
       && (rank <= 2 ==> v.attributes == 0x27 && v.timeStamp == TimeBlob(now) && OneCertificate(v.data, file, s.guid))
       && (rank == 3 ==> |file| >= 20 && v.attributes == 0x27 && v.timeStamp == file[..16]
                         && file[..Min(16 + FromLe(file[16..20]), |file|)] + v.data == file)
       && (rank == 4 ==> v.attributes == 3 && v.timeStamp == Fill(0, 16) && v.data == file)
  }

  lemma StepHolds(c: Command, v: Variable)
    requires IsStep(c) && RequestOf(c).Success? && StepAccepted(c) && Stored(v, RequestOf(c).value)
    ensures EntryHeld(v, Source(c.guid, c.file), Rank(c), c.now)
  {
    hide RequestOf, StoredUnder, TimeBlob, OneCertificate, FromLe, IsGuid, TailIgnored;
    RequestAsks(c);
    StepIdentity(c);
    hide Lower;
  }

  lemma RankIsHeld(vs: seq<Variable>, cfg: Config, clock: Clock, out: seq<Variable>, rank: nat)
    requires Enrolled(vs, StepsOf(cfg, clock), out) && ConfigAccepted(cfg)
    requires rank < 5 && Entry(cfg, rank).Some?
    ensures var i := Find(out, RankKey(cfg, rank));
      i >= 0 && EntryHeld(out[i], Entry(cfg, rank).value, rank, Reading(clock, rank))
  {
    hide RequestOf, StepsOf, View, StoredKey, Stored, Unique, RankKey, Reading, Entry, Rank, EntryHeld, EntryAccepted;
    var cs := StepsOf(cfg, clock);
    StepsAreOrdered(cfg, clock);
    var i :| 0 <= i < |cs| && Rank(cs[i]) == rank;
    var c := cs[i];
    StepKey(cfg, clock, c);
    StepHolds(c, View(out)[RankKey(cfg, rank)]);
  }

  lemma ConfigIsHeld(vs: seq<Variable>, cfg: Config, clock: Clock, out: seq<Variable>)
    requires Enrolled(vs, StepsOf(cfg, clock), out) && ConfigAccepted(cfg)
    ensures HoldsConfig(out, cfg, clock)
  {
    hide Enrolled, ConfigAccepted, StepsOf, Find, KeyFor, OneCertificate, TimeBlob, FromLe;
    if cfg.pk.Some? { RankIsHeld(vs, cfg, clock, out, 0); }
    if cfg.kek.Some? { RankIsHeld(vs, cfg, clock, out, 1); }
    if cfg.db.Some? { RankIsHeld(vs, cfg, clock, out, 2); }
    if cfg.dbx.Some? { RankIsHeld(vs, cfg, clock, out, 3); }
    RankIsHeld(vs, cfg, clock, out, 4);
  }

  // ---- their order ----

  /** The keys of the requests of a list of commands. */
  function RequestKeys(cs: seq<Command>): seq<Key>
    requires DistinctAdds(cs)
  {
    seq(|cs|, i requires 0 <= i < |cs| => StoredKey(RequestOf(cs[i]).value))
  }

  lemma AddKeys(vs: seq<Variable>, c: Command)
    requires c.kind.Add? && Apply(vs, c).Done?
    ensures RequestOf(c).Success?
    ensures var k := StoredKey(RequestOf(c).value);
      KeysOf(Apply(vs, c).value) == KeysOf(vs) + (if k in KeysOf(vs) then [] else [k])
  {
    hide RequestOf, Find, Str2Guid, Str2Blob, TimeBlob, Lower;
    var k := StoredKey(RequestOf(c).value);
    var i := Find(vs, k);
    if i >= 0 { assert KeysOf(vs)[i] == k; }
    assert KeysOf(Apply(vs, c).value) == KeysOf(vs) + (if k in KeysOf(vs) then [] else [k]);
  }

  lemma {:induction false} MissingIgnores(ks: seq<Key>, there: seq<Key>, k: Key)
    requires k !in ks
    ensures Missing(ks, there + [k]) == Missing(ks, there) && Missing(ks, there + []) == Missing(ks, there)
  {
    assert there + [] == there;
    if ks != [] {
      assert ks[0] in ks && forall x :: x in ks[1..] ==> x in ks;
      MissingIgnores(ks[1..], there, k);
    }
  }

  /** A run of additions keeps the keys in their places and adds the missing ones behind, in order. */
  lemma {:induction false} RunKeys(vs: seq<Variable>, cs: seq<Command>)
    requires DistinctAdds(cs) && RunList(vs, cs).Done?
    ensures KeysOf(RunList(vs, cs).value) == KeysOf(vs) + Missing(RequestKeys(cs), KeysOf(vs))
    decreases |cs|
  {
    hide RequestOf, Apply, StoredKey;
    if cs == [] {
      assert KeysOf(vs) + [] == KeysOf(vs);
    } else {
      var c, rest := cs[0], cs[1..];
      var k := StoredKey(RequestOf(c).value);
      AddNotRefused(vs, c);
      AddKeys(vs, c);
      RestOfAdds(cs);
      var ks := RequestKeys(rest);
      hide DistinctAdds, RequestKeys, KeysOf;
      RunKeys(Apply(vs, c).value, rest);
      MissingIgnores(ks, KeysOf(vs), k);
      Assoc(KeysOf(vs), if k in KeysOf(vs) then [] else [k], Missing(ks, KeysOf(vs)));
    }
  }

  /** The keys of the additions behind the first one, which is none of them. */
  lemma RestOfAdds(cs: seq<Command>)
    requires DistinctAdds(cs) && cs != []
    ensures DistinctAdds(cs[1..])
    ensures var k, ks := StoredKey(RequestOf(cs[0]).value), RequestKeys(cs[1..]);
      RequestKeys(cs) != [] && RequestKeys(cs)[0] == k && RequestKeys(cs)[1..] == ks && k !in ks
  {
    hide RequestOf, StoredKey;
    assert DistinctAdds(cs[1..]);
    assert RequestKeys(cs)[1..] == RequestKeys(cs[1..]);
  }

  lemma AddNotRefused(vs: seq<Variable>, c: Command)
    requires c.kind.Add?
    ensures !Apply(vs, c).Refused?
  {
  }

  lemma StepKeysAre(cfg: Config, clock: Clock)
    requires DistinctAdds(StepsOf(cfg, clock))
    ensures RequestKeys(StepsOf(cfg, clock)) == ConfigKeys(cfg)
  {
    hide RequestOf, StoredKey, RankKey, StepsOf, ConfigKeys, Rank, IsStepOf;
    var cs := StepsOf(cfg, clock);
    StepsAreOrdered(cfg, clock);
    RanksOfSteps(cfg, clock);
    forall i | 0 <= i < |cs| ensures StoredKey(RequestOf(cs[i]).value) == ConfigKeys(cfg)[i] {
      StepKey(cfg, clock, cs[i]);
    }
  }

  lemma RanksOfSteps(cfg: Config, clock: Clock)
    ensures var cs := StepsOf(cfg, clock);
      |cs| == |ConfigKeys(cfg)| && forall i :: 0 <= i < |cs| ==> ConfigKeys(cfg)[i] == RankKey(cfg, Rank(cs[i]))
  {
    hide StepsBelow, StepsOf, RankKey, Rank, ConfigKeys, KeysBelow;
    StepsAreBelow(cfg, clock);
    KeysAreBelow(cfg);
    RanksBelow(cfg, clock, 5);
  }

  /** The keys of the entries in front of a rank. */
  function KeysBelow(cfg: Config, n: nat): seq<Key>
    requires n <= 5
  {
    if n == 0 then []
    else KeysBelow(cfg, n - 1) + if Entry(cfg, n - 1).Some? then [RankKey(cfg, n - 1)] else []
  }

  lemma {:induction false} RanksBelow(cfg: Config, clock: Clock, n: nat)
    requires n <= 5
    ensures var cs, ks := StepsBelow(cfg, clock, n), KeysBelow(cfg, n);
      |cs| == |ks| && forall i :: 0 <= i < |cs| ==> ks[i] == RankKey(cfg, Rank(cs[i]))
  {
    hide StepOf, RankKey, Rank, Entry;
    if n > 0 {
      RanksBelow(cfg, clock, n - 1);
      OneStep(cfg, clock, n - 1);
    }
  }

  lemma KeysAreBelow(cfg: Config)
    ensures KeysBelow(cfg, 5) == ConfigKeys(cfg)
  {
    hide KeyFor;
    var one := if cfg.pk.Some? then [RankKey(cfg, 0)] else [];
    assert KeysBelow(cfg, 0) == [] && [] + one == one;
    assert KeysBelow(cfg, 1) == one;
    assert KeysBelow(cfg, 2) == one + if cfg.kek.Some? then [RankKey(cfg, 1)] else [];
    assert KeysBelow(cfg, 3) == KeysBelow(cfg, 2) + if cfg.db.Some? then [RankKey(cfg, 2)] else [];
    assert KeysBelow(cfg, 4) == KeysBelow(cfg, 3) + if cfg.dbx.Some? then [RankKey(cfg, 3)] else [];
    assert KeysBelow(cfg, 5) == KeysBelow(cfg, 4) + [RankKey(cfg, 4)];
  }

  lemma RunEnrolsConfig(vs: seq<Variable>, cfg: Config, clock: Clock)
    requires Unique(vs) && RunList(vs, StepsOf(cfg, clock)).Done? && ConfigAccepted(cfg)
    ensures EnrolsConfig(vs, cfg, clock, RunList(vs, StepsOf(cfg, clock)).value)
  {
    hide RunList, StepsOf, ConfigAccepted, HoldsConfig, Missing, RequestKeys, ConfigKeys, StoredKey, RequestOf, Stored;
    var cs := StepsOf(cfg, clock);
    var out := RunList(vs, cs).value;
    RunEnrols(vs, cfg, clock);
    ConfigIsHeld(vs, cfg, clock, out);
    RunKeys(vs, cs);
    StepKeysAre(cfg, clock);
    forall i | 0 <= i < |vs| && StoreOps.KeyOf(vs[i]) !in ConfigKeys(cfg) ensures out[i] == vs[i] {
      UntouchedInPlace(vs, cs, out, i);
    }
  }

  lemma UntouchedInPlace(vs: seq<Variable>, cs: seq<Command>, out: seq<Variable>, i: nat)
    requires Unique(vs) && Enrolled(vs, cs, out) && i < |vs| <= |out| && KeysOf(out)[i] == StoreOps.KeyOf(vs[i])
    requires StoreOps.KeyOf(vs[i]) !in RequestKeys(cs)
    ensures out[i] == vs[i]
  {
    hide RequestOf, StoredKey, Stored, Find, StoreOps.KeyOf;
    var k := StoreOps.KeyOf(vs[i]);
    forall j | 0 <= j < |cs| ensures StoredKey(RequestOf(cs[j]).value) != k {
      assert RequestKeys(cs)[j] in RequestKeys(cs);
    }
    assert !IsAdded(cs, k);
    FindIs(vs, k, i);
    FindIs(out, k, i);
  }

  /** Whole-run enrolment, for every configuration: when every intermediate list fits, do_var_enroll succeeds
      exactly when the configuration is acceptable. The image keeps its length; it has the same layout and
      reads as the list that the same additions reach in memory, unless SecureBootEnable was enrolled under a
      GUID with a tail. After success that list holds every configured variable under its name and vendor
      GUID with the certificate or payload of its file, new ones last and in order, the others unchanged. */
  lemma WholeRun(img: Blob, lay: Layout, vs: seq<Variable>, cfg: Config, clock: Clock)
    requires ReadsAs(img, lay, vs) && Unique(vs) && RunFits(vs, StepsOf(cfg, clock), lay, |img|)
    ensures Passes(img, StepsOf(cfg, clock)).Success?
    ensures var cs, p := StepsOf(cfg, clock), Passes(img, StepsOf(cfg, clock)).value;
      && p.ok == ConfigAccepted(cfg) && |p.image| == |img|
      && (ReadsAs(p.image, lay, RunAccepted(vs, cs).vars) <==> (p.ok ==> |cfg.enable.guid| == 36))
      && (p.ok ==> RunList(vs, cs) == Done(RunAccepted(vs, cs).vars)
                   && EnrolsConfig(vs, cfg, clock, RunAccepted(vs, cs).vars))
  {
    assert AllWellFormed(vs) by { hide Locate, Raw, ReadVars; }
    hide StepsOf, Passes, RunList, RunFits, RunAccepted, RunFaithful, FaithfulBefore, ReadsAs, Unique, EnrolsConfig,
      AllAccepted, AllSteps, ConfigAccepted, StepFaithful, AllWellFormed;
    var cs := StepsOf(cfg, clock);
    ConfigIsSteps(cfg, clock);
    RunOutcome(vs, cs);
    PassesAreRun(img, lay, vs, cs);
    if RunAccepted(vs, cs).ok {
      AcceptedIsRun(vs, cs);
      RunEnrolsConfig(vs, cfg, clock);
    }
  }

  lemma AllAdds(cfg: Config, clock: Clock)
    ensures forall i :: 0 <= i < |StepsOf(cfg, clock)| ==> StepsOf(cfg, clock)[i].kind.Add?
  {
    StepsAreOrdered(cfg, clock);
  }
}
