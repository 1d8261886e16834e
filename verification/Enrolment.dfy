/** Enrolment through a firmware file (process_var, var_enroll, do_var_enroll): what the edits keep,
    and why several file passes equal one in-memory run. */
module Enrolment {
  import opened Outcomes
  import opened Bytes
  import opened Text
  import opened Guid
  import opened WellKnownGuids
  import opened Variables
  import opened StoreCodec
  import opened NormalForm
  import opened StoreOps

  // ---- the size invariant ----

  /** The dbx payload starts inside its file. */
  predicate DbxInRange(c: Command) {
    !c.kind.Delete? && Lower(c.name) == "dbx" && c.file.Some? && |c.file.value| >= 20
    ==> AuthSize(c.file.value) <= |c.file.value|
  }

  lemma SignatureListSize(cert: Blob, owner: string)
    requires CertList(cert, owner).Success?
    ensures |CertList(cert, owner).value| == 28 + 16 + |cert|
  {
    hide Str2Guid;
  }

  /** The size a request announces is the length of its data, except for a dbx file whose
      authentication header runs past its end. */
  lemma RequestSize(c: Command)
    requires RequestOf(c).Success? && !c.kind.Delete?
    ensures var r := RequestOf(c).value; r.size == |r.data| <==> DbxInRange(c)
    ensures var r := RequestOf(c).value; !DbxInRange(c) ==> r.size < 0 && r.data == []
  {
    hide CertList, Lower, ParseTime, AuthSize;
    if Lower(c.name) != "dbx" {
      forall o | CertList(c.file.value, o).Success? ensures |CertList(c.file.value, o).value| == 44 + |c.file.value| {
        SignatureListSize(c.file.value, o);
      }
    }
  }

  lemma SizesSplit(vs: seq<Variable>, i: nat)
    requires i < |vs|
    ensures AllSizesExact(vs) <==> AllSizesExact(vs[..i] + vs[i + 1..]) && SizesExact(vs[i])
    ensures AllSizesExact(vs) ==> AllSizesExact(vs[..i] + vs[i + 1..])
  {
    var out := vs[..i] + vs[i + 1..];
    assert vs == vs[..i] + [vs[i]] + vs[i + 1..];
  }

  lemma AddSizes(vs: seq<Variable>, r: Request)
    requires AllSizesExact(vs) && AddVariable(vs, r).Success?
    ensures AllSizesExact(AddVariable(vs, r).value) <==> r.size == |r.data|
  {
    hide Find, Str2Guid, Str2Blob, Lower, TimeBlob;
    var i := Find(vs, KeyFor(r.name, r.guid));
    var out := AddVariable(vs, r).value;
    if i >= 0 {
      SizesSplit(vs, i);
      SizesSplit(out, i);
      assert out[..i] + out[i + 1..] == vs[..i] + vs[i + 1..];
    } else {
      SizesSplit(out, |vs|);
      assert out[..|vs|] + out[|vs| + 1..] == vs;
    }
  }

  /** Size invariant, one command: it is kept if and only if a dbx payload is in range. */
  lemma ApplySizes(vs: seq<Variable>, c: Command)
    requires AllSizesExact(vs) && Apply(vs, c).Done?
    ensures AllSizesExact(Apply(vs, c).value) <==> DbxInRange(c)
  {
    hide Find, RequestOf, AddVariable, DbxInRange, SizesExact, KeyFor;
    var i := Find(vs, KeyFor(c.name, c.guid));
    if i >= 0 { SizesSplit(vs, i); }
    if c.kind.Delete? {
      DeleteInRange(c);
    } else {
      RequestSize(c);
      var from := if c.kind.Update? then vs[..i] + vs[i + 1..] else vs;
      AddSizes(from, RequestOf(c).value);
    }
  }

  lemma DeleteInRange(c: Command)
    ensures c.kind.Delete? ==> DbxInRange(c)
  {
  }

  /** Size invariant over every run of commands. */
  lemma {:induction false} RunSizes(vs: seq<Variable>, cs: seq<Command>)
    requires AllSizesExact(vs) && RunList(vs, cs).Done?
    requires forall i :: 0 <= i < |cs| ==> DbxInRange(cs[i])
    ensures AllSizesExact(RunList(vs, cs).value)
    decreases |cs|
  {
    if cs != [] {
      hide Apply, DbxInRange, SizesExact;
      if Apply(vs, cs[0]).Done? {
        ApplySizes(vs, cs[0]);
        RunSizes(Apply(vs, cs[0]).value, cs[1..]);
      } else {
        RunSizes(vs, cs[1..]);
      }
    }
  }

  // ---- what commands keep readable ----

  predicate Reserved(name: string) { Lower(name) in ["pk", "kek", "db", "dbx"] }

  /** Framed apart from the 32-bit bound on the sizes. */
  predicate SoundFrame(v: Variable) {
    v.startId == START_ID && v.state == VAR_ADDED && SizesExact(v) && 0 <= v.attributes < WORD
    && v.guidStr == Guid2Str(v.vendorGuid)
  }

  /** Readable apart from the 32-bit bound on the sizes. */
  predicate Sound(v: Variable) {
    SoundFrame(v) && Utf8Valid(v.nameBlob)
  }

  predicate AllSound(vs: seq<Variable>) { forall i :: 0 <= i < |vs| ==> Sound(vs[i]) }

  predicate SoundRequest(r: Request) {
    IsAscii(r.name) && |r.guid| == 36 && 0 <= r.attributes < WORD && r.size == |r.data|
  }

  /** What the caller has to respect for its variable to be readable on the next pass. */
  predicate SoundCommand(c: Command) {
    DbxInRange(c)
    && (!c.kind.Delete? && !Reserved(c.name) ==>
          IsAscii(c.name) && |c.guid| == 36 && 0 <= AttributesOf(c) < WORD)
  }

  lemma SoundCommandRequest(c: Command)
    requires SoundCommand(c) && !c.kind.Delete? && RequestOf(c).Success?
    ensures SoundRequest(RequestOf(c).value)
  {
    hide CertList, Lower, ParseTime, AuthSize, DbxInRange, TimeFor, IsAscii;
    RequestSize(c);
    ReservedNames();
  }

  lemma ReservedNames()
    ensures IsAscii("PK") && IsAscii("KEK") && IsAscii("db") && IsAscii("dbx") && IsAscii("SecureBootEnable")
    ensures |EFI_GLOBAL_VARIABLE| == 36 && |IMAGE_SECURITY_DATABASE| == 36
  {
  }

  /** A new variable can be read back if and only if its name is ASCII, its GUID text has no tail,
      its attributes fit 32 bits and its size is that of its data. */
  lemma CreatedSound(r: Request)
    requires Str2Guid(r.guid).Success?
    ensures Sound(Created(r, Str2Guid(r.guid).value)) <==> SoundRequest(r)
  {
    NameDecodes(r.name);
    Str2GuidInverse(r.guid);
    hide Str2Guid, Guid2Str, Str2Blob, Utf8Valid, TimeBlob;
  }

  lemma AddSound(vs: seq<Variable>, r: Request)
    requires AllSound(vs) && SoundRequest(r) && AddVariable(vs, r).Success?
    ensures AllSound(AddVariable(vs, r).value)
  {
    hide Find, Str2Guid, Guid2Str, Str2Blob, Utf8Valid, TimeBlob, Lower;
    if Find(vs, KeyFor(r.name, r.guid)) < 0 { CreatedSound(r); }
  }

  /** Commands within the stated limits keep every variable readable. */
  lemma ApplySound(vs: seq<Variable>, c: Command)
    requires AllSound(vs) && SoundCommand(c) && Apply(vs, c).Done?
    ensures AllSound(Apply(vs, c).value)
  {
    hide Find, RequestOf, AddVariable, Sound, SoundCommand, SoundRequest, KeyFor;
    var i := Find(vs, KeyFor(c.name, c.guid));
    if !c.kind.Delete? {
      SoundCommandRequest(c);
      AddSound(if c.kind.Update? then vs[..i] + vs[i + 1..] else vs, RequestOf(c).value);
    }
  }

  // ---- fitting, without assuming the sizes can be packed ----

  function RecordLength(v: Variable): nat { Align4(HEADER_SIZE + |v.nameBlob| + |v.data|) }

  function TotalLength(vs: seq<Variable>): nat {
    if vs == [] then 0 else RecordLength(vs[0]) + TotalLength(vs[1..])
  }

  /** Records of the given total length fit in the region of an image of the given length, and the reader
      can look past them. */
  predicate RoomFor(lay: Layout, length: nat, total: nat) {
    STORE_HEADER + total <= lay.storeSize
    && (STORE_HEADER + total + 1 == lay.storeSize ==> lay.hdrLen + lay.storeSize < Min(lay.fvSize, length))
  }

  predicate Room(lay: Layout, length: nat, vs: seq<Variable>) { RoomFor(lay, length, TotalLength(vs)) }

  lemma {:induction false} FittingIsFramed(vs: seq<Variable>)
    requires (forall i :: 0 <= i < |vs| ==> SoundFrame(vs[i])) && TotalLength(vs) < WORD
    ensures AllFramed(vs) && |EncodeAll(vs)| == TotalLength(vs)
  {
    hide Guid2Str, Padded;
    if vs != [] {
      FittingIsFramed(vs[1..]);
      assert forall v :: v in vs <==> v == vs[0] || v in vs[1..];
      assert Packable(vs[0]) && Framed(vs[0]);
      PaddedLength(vs[0]);
    }
  }

  lemma WellFormedIsSound(vs: seq<Variable>)
    requires AllWellFormed(vs)
    ensures AllSound(vs)
  {
    hide Utf8Valid, Guid2Str;
    forall i | 0 <= i < |vs| ensures Sound(vs[i]) {
      assert vs[i] in vs;
    }
  }

  lemma StoreSizeIsWord(img: Blob)
    requires Locate(img).Found?
    ensures Locate(img).lay.storeSize < WORD
  {
    hide Guid2Str;
    var lay := Layout(FromLe(img[48..50]), FromLe(img[32..40]), 0);
    var header := Slice(Raw(img, lay), 0, STORE_HEADER);
    FromLeInverse(header[16..20]);
    Limits();
  }

  // ---- one pass through the file ----

  /** process_var on an opened store: the image written, if any. */
  function ProcessVar(img: Blob, lay: Layout, vs: seq<Variable>, c: Command): Applied<Blob> {
    match Apply(vs, c)
    case Done(out) => if AllPackable(out) then Done(Write(img, lay, out)) else Raised(StructError)
    case Refused => Refused
    case Raised(e) => Raised(e)
  }

  /** check_args */
  predicate ArgsAccepted(c: Command) {
    IsGuid(c.guid)
    && (!c.kind.Delete? ==> c.file.Some? && (Reserved(c.name) || c.attributes.Some?))
  }

  /** The return value of var_enroll and the file it leaves. */
  datatype Pass = Pass(ok: bool, image: Blob)

  /** var_enroll; an exception raised while the store is opened escapes. */
  function VarEnroll(img: Blob, c: Command): Result<Pass>
    requires Locate(img) != Diverges
  {
    match Locate(img)
    case Raises(e) => Failure(e)
    case Unsupported => Success(Pass(false, img))
    case Found(lay) =>
      var scan :- ReadVars(Raw(img, lay), STORE_HEADER, lay.storeSize);
      if !ArgsAccepted(c) then Success(Pass(false, img))
      else
        match ProcessVar(img, lay, scan.vars, c)
        case Done(out) => Success(Pass(true, out))
        case Refused => Success(Pass(true, img)) // the False of process_var is not looked at
        case Raised(_) => Success(Pass(false, img))
  }

  // ---- when a command is accepted ----

  /** The list that a command's addition works on: update_variable deletes first. */
  function Target(vs: seq<Variable>, c: Command): seq<Variable> {
    var i := Find(vs, KeyFor(c.name, c.guid));
    if c.kind.Update? && i >= 0 then vs[..i] + vs[i + 1..] else vs
  }

  /** A command is refused exactly when it deletes or updates a variable that is not there, and raises
      exactly when it gets as far as adding and cannot build its request or its new variable's GUID. */
  lemma CommandOutcome(vs: seq<Variable>, c: Command)
    ensures Apply(vs, c).Refused?
       <==> (c.kind.Delete? || c.kind.Update?) && Find(vs, KeyFor(c.name, c.guid)) < 0
    ensures Apply(vs, c).Raised?
       <==> !c.kind.Delete? && (c.kind.Update? ==> Find(vs, KeyFor(c.name, c.guid)) >= 0)
            && (RequestOf(c).Failure?
                || var r := RequestOf(c).value;
                   Find(Target(vs, c), KeyFor(r.name, r.guid)) < 0 && Str2Guid(r.guid).Failure?)
  {
    hide Find, RequestOf, KeyFor, Str2Guid, Created, Updated;
  }

  /** Whether a request makes a record that can be packed: attributes, name size and new data size fit. */
  predicate RequestPacks(vs: seq<Variable>, r: Request) {
    var i := Find(vs, KeyFor(r.name, r.guid));
    0 <= r.attributes < 0x1_0000_0000 && |Str2Blob(r.name)| < 0x1_0000_0000
    && 0 <= (if i >= 0 && r.append then vs[i].dataSize + r.size else r.size) < 0x1_0000_0000
  }

  predicate Packs(vs: seq<Variable>, c: Command) {
    c.kind.Delete? || (RequestOf(c).Success? && RequestPacks(Target(vs, c), RequestOf(c).value))
  }

  lemma AddPacks(vs: seq<Variable>, r: Request)
    requires AllPackable(vs) && AllSizesExact(vs) && AddVariable(vs, r).Success?
    ensures AllPackable(AddVariable(vs, r).value) <==> RequestPacks(vs, r)
  {
    hide Find, Str2Guid, Str2Blob, Lower, TimeBlob;
    var out, i := AddVariable(vs, r).value, Find(vs, KeyFor(r.name, r.guid));
    var j := if i >= 0 then i else |vs|;
    assert out[j] in out;
    assert i >= 0 ==> vs[i] in vs;
    if Packable(out[j]) {
      forall v | v in out ensures Packable(v) {
        var k :| 0 <= k < |out| && out[k] == v;
        assert k != j ==> out[k] == vs[k];
      }
    }
  }

  lemma TargetKeeps(vs: seq<Variable>, c: Command)
    requires AllPackable(vs) && AllSizesExact(vs)
    ensures AllPackable(Target(vs, c)) && AllSizesExact(Target(vs, c))
  {
    hide Find, KeyFor, Packable, SizesExact;
  }

  /** What a command makes of a well-formed list can be packed exactly when its own record can. */
  lemma PacksExactly(vs: seq<Variable>, c: Command)
    requires AllPackable(vs) && AllSizesExact(vs) && Apply(vs, c).Done?
    ensures AllPackable(Apply(vs, c).value) <==> Packs(vs, c)
  {
    hide Find, RequestOf, AddVariable, KeyFor, Packable, SizesExact, RequestPacks;
    if !c.kind.Delete? {
      TargetKeeps(vs, c);
      AddPacks(Target(vs, c), RequestOf(c).value);
    }
  }

  /** The commands for which var_enroll returns True: the arguments pass check_args, nothing raises, and
      what is to be written can be packed. */
  predicate Accepted(vs: seq<Variable>, c: Command) {
    ArgsAccepted(c) && !Apply(vs, c).Raised? && (Apply(vs, c).Done? ==> Packs(vs, c))
  }

  /** var_enroll on every image that can be read, for every command: it returns True exactly for the accepted
      ones, and writes exactly when such a command is done. */
  lemma PassOutcome(img: Blob, lay: Layout, vs: seq<Variable>, c: Command)
    requires ReadsAs(img, lay, vs)
    ensures VarEnroll(img, c).Success? && VarEnroll(img, c).value.ok == Accepted(vs, c)
    ensures var out := VarEnroll(img, c).value.image;
      if Accepted(vs, c) && Apply(vs, c).Done?
      then AllPackable(Apply(vs, c).value) && out == Write(img, lay, Apply(vs, c).value)
      else out == img
  {
    hide Apply, Write, Raw, ReadVars, Locate, ArgsAccepted, WellFormed, Packable, Packs, SizesExact;
    if Apply(vs, c).Done? {
      WellFormedSizesExact(vs);
      PacksExactly(vs, c);
    }
  }

  lemma WellFormedSizesExact(vs: seq<Variable>)
    requires AllWellFormed(vs)
    ensures AllPackable(vs) && AllSizesExact(vs)
  {
    hide Utf8Valid, Guid2Str, Packable;
  }

  // ---- when the file then reads as the edited list ----

  /** A variable stored under a key has that key's text: an ASCII name and a GUID of 36 characters. */
  lemma FoundIsCanonical(v: Variable, r: Request)
    requires WellFormed(v) && StoreOps.KeyOf(v) == KeyFor(r.name, r.guid)
    ensures IsAscii(r.name) && |r.guid| == 36
  {
    hide Packable, Str2Blob, Guid2Str, Utf8Valid;
    NameDecodes(r.name);
  }

  /** A GUID text of another length is never found. */
  lemma OtherLengthIsNew(vs: seq<Variable>, name: string, guid: string)
    requires AllWellFormed(vs) && |guid| != 36
    ensures Find(vs, KeyFor(name, guid)) < 0
  {
    hide Packable, Str2Blob, Guid2Str, Utf8Valid;
    forall i | 0 <= i < |vs| ensures StoreOps.KeyOf(vs[i]) != KeyFor(name, guid) {
      assert vs[i] in vs;
      assert |vs[i].guidStr| == 36;
    }
  }

  /** The variable that a request makes is well-formed only if the request is within the limits. */
  lemma AddNeedsSound(vs: seq<Variable>, r: Request)
    requires AllWellFormed(vs) && AddVariable(vs, r).Success? && AllWellFormed(AddVariable(vs, r).value)
    ensures SoundRequest(r)
  {
    hide Str2Guid, Guid2Str, Str2Blob, Utf8Valid, TimeBlob, Lower, IsAscii;
    var out, i := AddVariable(vs, r).value, Find(vs, KeyFor(r.name, r.guid));
    if i >= 0 {
      assert vs[i] in vs && out[i] in out;
      FoundIsCanonical(vs[i], r);
    } else {
      assert out[|vs|] in out;
      CreatedSound(r);
    }
  }

  lemma SoundFromRequest(c: Command)
    requires !c.kind.Delete? && RequestOf(c).Success? && SoundRequest(RequestOf(c).value)
    ensures SoundCommand(c)
  {
    hide CertList, Lower, ParseTime, AuthSize, DbxInRange, TimeFor, IsAscii;
    RequestSize(c);
  }

  lemma TargetWellFormed(vs: seq<Variable>, c: Command)
    requires AllWellFormed(vs)
    ensures AllWellFormed(Target(vs, c))
  {
    hide Find, KeyFor, Packable, WellFormed;
  }

  /** What an accepted command makes of a well-formed list is well-formed if and only if the command is
      within the limits. */
  lemma WritesWellFormed(vs: seq<Variable>, c: Command)
    requires AllWellFormed(vs) && Apply(vs, c).Done? && AllPackable(Apply(vs, c).value)
    ensures AllWellFormed(Apply(vs, c).value) <==> SoundCommand(c)
  {
    hide Find, RequestOf, AddVariable, KeyFor, Packable, WellFormed, SoundCommand, SoundRequest, Sound;
    var out := Apply(vs, c).value;
    if SoundCommand(c) {
      WellFormedIsSound(vs);
      ApplySound(vs, c);
      forall v | v in out ensures WellFormed(v) {
        var i :| 0 <= i < |out| && out[i] == v;
        SoundIsWellFormed(v);
      }
    } else if AllWellFormed(out) {
      if c.kind.Delete? {
        DeleteIsSound(c);
      } else {
        TargetWellFormed(vs, c);
        AddNeedsSound(Target(vs, c), RequestOf(c).value);
        SoundFromRequest(c);
      }
    }
  }

  lemma DeleteIsSound(c: Command)
    requires c.kind.Delete?
    ensures SoundCommand(c)
  {
  }

  lemma SoundIsWellFormed(v: Variable)
    requires Sound(v) && Packable(v)
    ensures WellFormed(v)
  {
    hide Utf8Valid, Guid2Str;
  }

  /** No command announces more than it stores. */
  predicate NotShort(v: Variable) { v.nameSize == |v.nameBlob| && v.dataSize <= |v.data| }

  lemma AddNotShort(vs: seq<Variable>, r: Request)
    requires (forall v :: v in vs ==> NotShort(v)) && AddVariable(vs, r).Success? && r.size <= |r.data|
    ensures forall v :: v in AddVariable(vs, r).value ==> NotShort(v)
  {
    hide Find, Str2Guid, Str2Blob, Lower, TimeBlob;
    var i := Find(vs, KeyFor(r.name, r.guid));
    if i >= 0 { assert vs[i] in vs; }
  }

  lemma WritesNotShort(vs: seq<Variable>, c: Command)
    requires AllWellFormed(vs) && Apply(vs, c).Done?
    ensures forall v :: v in Apply(vs, c).value ==> NotShort(v)
  {
    hide Find, RequestOf, AddVariable, KeyFor, Packable, Utf8Valid, Guid2Str;
    assert forall v :: v in vs ==> NotShort(v);
    if !c.kind.Delete? {
      RequestSize(c);
      assert forall v :: v in Target(vs, c) ==> NotShort(v);
      AddNotShort(Target(vs, c), RequestOf(c).value);
    }
  }

  lemma NotShortIsNotCut(vs: seq<Variable>)
    requires forall v :: v in vs ==> NotShort(v)
    ensures !EndsCut(vs)
  {
    hide Utf8Valid, Guid2Str, Packable, Actual;
    if vs != [] { assert vs[|vs| - 1] in vs; }
  }

  /** The file written for a command that is done reads as the edited list if and only if the command is
      within the limits: an ASCII name and a GUID text without tail for an ordinary variable, and a dbx
      header that ends inside its file. */
  lemma WrittenReadsBack(img: Blob, lay: Layout, vs: seq<Variable>, c: Command)
    requires ReadsAs(img, lay, vs) && Apply(vs, c).Done? && AllPackable(Apply(vs, c).value)
    requires Room(lay, |img|, Apply(vs, c).value)
    ensures ReadsBack(img, lay, Apply(vs, c).value) <==> SoundCommand(c)
    ensures ReadsAs(Write(img, lay, Apply(vs, c).value), lay, Apply(vs, c).value) <==> SoundCommand(c)
    ensures |Write(img, lay, Apply(vs, c).value)| == |img|
  {
    hide Apply, Write, Raw, ReadVars, Locate, EncodeAll, TotalLength, SoundCommand, WellFormed, Packable, EndsCut;
    var out := Apply(vs, c).value;
    EncodedLength(out);
    WritesWellFormed(vs, c);
    WritesNotShort(vs, c);
    NotShortIsNotCut(out);
    RoundTripExact(img, lay, out);
    WriterFrame(img, lay, out);
    WriteKeepsLayout(img, lay, out);
  }

  lemma {:induction false} EncodedLength(vs: seq<Variable>)
    requires AllPackable(vs)
    ensures |EncodeAll(vs)| == TotalLength(vs)
  {
    hide Padded, Packable, RecordLength;
    if vs != [] {
      EncodedLength(vs[1..]);
      RecordPadded(vs[0]);
    }
  }

  lemma RecordPadded(v: Variable)
    requires Packable(v)
    ensures |Padded(v)| == RecordLength(v)
  {
    PaddedActual(v);
  }

  /** The list that the next pass must find in the file. */
  function Expected(vs: seq<Variable>, c: Command): seq<Variable> {
    match Apply(vs, c)
    case Done(out) => if Accepted(vs, c) then out else vs
    case _ => vs
  }

  /** A command that leaves the file readable: it writes nothing, or it is within the limits. */
  predicate Faithful(vs: seq<Variable>, c: Command) {
    Accepted(vs, c) && Apply(vs, c).Done? ==> SoundCommand(c)
  }

  /** One file pass is one in-memory edit: var_enroll returns True exactly for the accepted commands; the
      image keeps its length, is left alone by a command that is refused or not accepted, and reads as the
      edited list, in the same layout, if and only if the command is faithful. */
  lemma PassIsEdit(img: Blob, lay: Layout, vs: seq<Variable>, c: Command)
    requires ReadsAs(img, lay, vs)
    requires Accepted(vs, c) && Apply(vs, c).Done? ==> Room(lay, |img|, Expected(vs, c))
    ensures VarEnroll(img, c).Success?
    ensures var p := VarEnroll(img, c).value;
      p.ok == Accepted(vs, c) && |p.image| == |img|
      && (ReadsAs(p.image, lay, Expected(vs, c)) <==> Faithful(vs, c))
      && (!(Accepted(vs, c) && Apply(vs, c).Done?) ==> p.image == img)
  {
    hide Apply, Write, VarEnroll, Accepted, SoundCommand, Packable, ReadsAs, Room, ReadsBack;
    PassOutcome(img, lay, vs, c);
    if Accepted(vs, c) && Apply(vs, c).Done? {
      WrittenReadsBack(img, lay, vs, c);
    }
  }

  /** var_enroll returns False, and leaves the file alone, for every command with an invalid GUID, without the
      file it needs, or without attributes for an ordinary variable. */
  lemma TurnedDown(img: Blob, lay: Layout, vs: seq<Variable>, c: Command)
    requires ReadsAs(img, lay, vs)
    requires || !IsGuid(c.guid) || (!c.kind.Delete? && c.file.None?)
             || (!c.kind.Delete? && c.attributes.None? && Lower(c.name) !in ["pk", "kek", "db", "dbx"])
    ensures VarEnroll(img, c) == Success(Pass(false, img))
  {
    hide Apply, Raw, ReadVars, Locate, AllWellFormed, IsGuid, Lower;
  }

  /** And for every command with none of these faults the arguments are no reason to return False. */
  lemma NotTurnedDown(vs: seq<Variable>, c: Command)
    requires IsGuid(c.guid) && (c.kind.Delete? || c.file.Some?)
    requires c.kind.Delete? || c.attributes.Some? || Lower(c.name) in ["pk", "kek", "db", "dbx"]
    ensures Accepted(vs, c) <==> !Apply(vs, c).Raised? && (Apply(vs, c).Done? ==> Packs(vs, c))
  {
    hide Apply, IsGuid, Lower, Packs;
  }

  /** A store of another kind is left alone by every command, which returns False. */
  lemma OtherStoreLeftAlone(v: VolumeHeader, blocks: Blob, s: StoreHeader, rest: Blob, c: Command)
    requires v.hdrLen == FV_HEADER + |blocks| && v.hdrLen + STORE_HEADER <= v.size
    requires Guid2Str(v.guid) == "fff12b8d-7696-4c8b-a985-2747075b4f50"
    requires Guid2Str(s.signature) != "aaf32c78-947b-439a-a180-2e144ec37792"
    ensures var img := EncodeVolume(v) + blocks + EncodeStore(s) + rest;
      Locate(img) != Diverges && VarEnroll(img, c) == Success(Pass(false, img))
  {
    hide Locate, EncodeVolume, EncodeStore, Guid2Str;
    LocateInverse(v, blocks, s, rest);
  }

  /** var_enroll returns True, and leaves the file alone, for every deletion or update of a variable that is
      not there. */
  lemma RefusedReturnsTrue(img: Blob, lay: Layout, vs: seq<Variable>, c: Command)
    requires ReadsAs(img, lay, vs) && ArgsAccepted(c)
    requires (c.kind.Delete? || c.kind.Update?) && Find(vs, KeyFor(c.name, c.guid)) < 0
    ensures VarEnroll(img, c) == Success(Pass(true, img))
  {
    hide Apply, Raw, ReadVars, Locate, ArgsAccepted, Find, KeyFor, AllWellFormed;
    CommandOutcome(vs, c);
  }

  /** A variable added under a name that is not ASCII is written, and from then on no pass can open
      the file: every var_enroll on it raises. */
  lemma WideNameBlocksFile(img: Blob, lay: Layout, vs: seq<Variable>, c: Command, later: Command)
    requires ReadsAs(img, lay, vs) && ArgsAccepted(c) && c.kind.Add? && !Reserved(c.name) && !IsAscii(c.name)
    requires |c.guid| == 36 && 0 <= AttributesOf(c) < WORD && Find(vs, KeyFor(c.name, c.guid)) < 0
    requires Apply(vs, c).Done? ==> Room(lay, |img|, Apply(vs, c).value)
    ensures VarEnroll(img, c).Success? && VarEnroll(img, c).value.ok
    ensures var out := VarEnroll(img, c).value.image;
      Locate(out) == Found(lay) && VarEnroll(out, later).Failure?
  {
    WideAdd(vs, c);
    hide Apply, Write, Raw, ReadVars, Locate, EncodeAll, TotalLength, ArgsAccepted, WellFormed, Framed, Packable,
      Find, Utf8Valid;
    var out := Apply(vs, c).value;
    StoreSizeIsWord(img);
    WideIsFramed(vs, c);
    WriteKeepsLayout(img, lay, out);
    StoreRoundTrip(img, lay, out);
    assert out[|vs|] in out;
  }

  lemma WideAdd(vs: seq<Variable>, c: Command)
    requires ArgsAccepted(c) && c.kind.Add? && !Reserved(c.name) && !IsAscii(c.name)
    requires |c.guid| == 36 && Find(vs, KeyFor(c.name, c.guid)) < 0
    ensures Apply(vs, c).Done? && |Apply(vs, c).value| == |vs| + 1 && Apply(vs, c).value[..|vs|] == vs
    ensures var v := Apply(vs, c).value[|vs|];
      && !Utf8Valid(v.nameBlob) && v.attributes == AttributesOf(c) && SizesExact(v)
      && v.startId == START_ID && v.state == VAR_ADDED && v.guidStr == Guid2Str(v.vendorGuid)
  {
    hide Find, Str2Guid, Guid2Str, Str2Blob, Utf8Valid, TimeBlob, Lower, CertList, IsGuid;
    CanonicalAccepted(c.guid);
    NameDecodes(c.name);
    Str2GuidInverse(c.guid);
  }

  lemma WideIsFramed(vs: seq<Variable>, c: Command)
    requires AllWellFormed(vs) && ArgsAccepted(c) && c.kind.Add? && !Reserved(c.name) && !IsAscii(c.name)
    requires |c.guid| == 36 && 0 <= AttributesOf(c) < WORD && Find(vs, KeyFor(c.name, c.guid)) < 0
    requires Apply(vs, c).Done? && TotalLength(Apply(vs, c).value) < WORD
    ensures AllFramed(Apply(vs, c).value) && |EncodeAll(Apply(vs, c).value)| == TotalLength(Apply(vs, c).value)
  {
    WideAdd(vs, c);
    hide Apply, ArgsAccepted, Find, Utf8Valid, Guid2Str, EncodeAll, TotalLength, IsAscii, Reserved;
    var out := Apply(vs, c).value;
    forall i | 0 <= i < |out| ensures SoundFrame(out[i]) {
      if i < |vs| { assert out[i] == vs[i] && vs[i] in vs; }
    }
    FittingIsFramed(out);
  }

  /** A variable added under a GUID text with a tail that uuid.UUID ignores. */
  predicate TailAdd(c: Command) {
    c.kind.Add? && !Reserved(c.name) && IsAscii(c.name) && |c.guid| > 36
  }

  /** The variable as it is read from the file, without the tail. */
  function WithoutTail(v: Variable): Variable { v.(guidStr := Guid2Str(v.vendorGuid)) }

  lemma TailIsNew(vs: seq<Variable>, c: Command)
    requires AllWellFormed(vs) && TailAdd(c) && Accepted(vs, c)
    ensures Apply(vs, c).Done? && |Apply(vs, c).value| == |vs| + 1 && Apply(vs, c).value[..|vs|] == vs
    ensures var v := Apply(vs, c).value[|vs|];
      && Packable(v) && v.guidStr == Lower(c.guid)
      && WellFormed(WithoutTail(v)) && StoreOps.KeyOf(WithoutTail(v)) == KeyFor(c.name, c.guid[..36])
  {
    hide Find, Str2Guid, Guid2Str, Str2Blob, Utf8Valid, TimeBlob, Lower, CertList, IsGuid, IsAscii;
    OtherLengthIsNew(vs, c.name, c.guid);
    NameDecodes(c.name);
    Str2GuidInverse(c.guid);
  }

  lemma TailNotEncoded(vs: seq<Variable>, v: Variable)
    requires AllWellFormed(vs) && Packable(v) && WellFormed(WithoutTail(v))
    ensures AllPackable(vs + [v]) && AllPackable(vs + [WithoutTail(v)]) && AllWellFormed(vs + [WithoutTail(v)])
    ensures EncodeAll(vs + [v]) == EncodeAll(vs + [WithoutTail(v)])
  {
    hide Guid2Str, EncodeAll, WellFormed, Fill;
    FramedOf(WithoutTail(v));
    EncodeAllAppend(vs, v);
    EncodeAllAppend(vs, WithoutTail(v));
    assert Encoded(v) == Encoded(WithoutTail(v));
  }

  /** Such a variable is written, and read under the shorter key: the file does not read as the edited list,
      and holds two variables with one key if the shorter key was there. */
  lemma TailIsCut(img: Blob, lay: Layout, vs: seq<Variable>, c: Command)
    requires ReadsAs(img, lay, vs) && TailAdd(c) && Accepted(vs, c) && Room(lay, |img|, Expected(vs, c))
    ensures VarEnroll(img, c).Success? && VarEnroll(img, c).value.ok
    ensures |Expected(vs, c)| == |vs| + 1
    ensures var image, read := VarEnroll(img, c).value.image, vs + [WithoutTail(Expected(vs, c)[|vs|])];
      && !ReadsAs(image, lay, Expected(vs, c)) && ReadsAs(image, lay, read)
      && StoreOps.KeyOf(read[|vs|]) == KeyFor(c.name, c.guid[..36])
      && (Find(vs, KeyFor(c.name, c.guid[..36])) >= 0 ==> !Unique(read))
  {
    hide Apply, Raw, ReadVars, Locate, EncodeAll, TotalLength, WellFormed, Packable, Find, Accepted, VarEnroll,
      StoreOps.KeyOf, KeyFor, WithoutTail, ReadsBack, AllWellFormed;
    assert AllWellFormed(vs) by { ReadsAsLocates(img, lay, vs); }
    TailIsNew(vs, c);
    var out := Expected(vs, c);
    var v := out[|vs|];
    assert out == vs + [v];
    PassIsEdit(img, lay, vs, c);
    PassOutcome(img, lay, vs, c);
    TailIsUnsound(c);
    TailNotEncoded(vs, v);
    EncodedLength(out);
    var read := vs + [WithoutTail(v)];
    SameWrite(img, lay, out, read);
    PassIsNormalForm(img, lay, read);
    if Find(vs, KeyFor(c.name, c.guid[..36])) >= 0 {
      var i := Find(vs, KeyFor(c.name, c.guid[..36]));
      assert read[i] == vs[i];
    }
  }

  lemma TailIsUnsound(c: Command)
    requires TailAdd(c)
    ensures !SoundCommand(c)
  {
    hide Reserved, IsAscii;
  }

  lemma SameWrite(img: Blob, lay: Layout, vs: seq<Variable>, ws: seq<Variable>)
    requires AllPackable(vs) && AllPackable(ws) && EncodeAll(vs) == EncodeAll(ws)
    ensures Write(img, lay, vs) == Write(img, lay, ws)
  {
  }

  /** A closing brace is such a tail. */
  lemma BraceIsTail()
    ensures var guid := IMAGE_SECURITY_DATABASE + "}";
      |guid| == 37 && IsGuid(guid) && TailIgnored(guid[36..])
  {
    var guid := IMAGE_SECURITY_DATABASE + "}";
    DatabaseShape();
    hide GuidShape;
    assert guid[..36] == IMAGE_SECURITY_DATABASE;
    assert guid[36..] == "}" && "}"[..0] == [];
    assert guid[14] == IMAGE_SECURITY_DATABASE[14] && guid[19] == IMAGE_SECURITY_DATABASE[19];
  }

  /** An overrunning dbx file appended to enough data. */
  predicate OverrunAppend(vs: seq<Variable>, c: Command) {
    c.kind.Append? && Lower(c.name) == "dbx" && ArgsAccepted(c) && |c.file.value| >= 20
    && var over := AuthSize(c.file.value) - |c.file.value|;
       var i := Find(vs, KeyFor("dbx", IMAGE_SECURITY_DATABASE));
       over > 0 && i >= 0 && vs[i].dataSize >= over
  }

  /** It is written with its size lowered by the overrun and all its data, and no longer delimits them: the
      file does not read as the edited list. */
  lemma OverrunShortens(img: Blob, lay: Layout, vs: seq<Variable>, c: Command)
    requires ReadsAs(img, lay, vs) && OverrunAppend(vs, c) && Room(lay, |img|, Expected(vs, c))
    ensures VarEnroll(img, c).Success? && VarEnroll(img, c).value.ok
    ensures var i := Find(vs, KeyFor("dbx", IMAGE_SECURITY_DATABASE));
      && |Expected(vs, c)| == |vs| && Expected(vs, c)[i].data == vs[i].data
      && Expected(vs, c)[i].dataSize == vs[i].dataSize - (AuthSize(c.file.value) - |c.file.value|)
    ensures !ReadsAs(VarEnroll(img, c).value.image, lay, Expected(vs, c))
  {
    assert AllWellFormed(vs) by { hide Locate, Raw, ReadVars; }
    OverrunIsAccepted(vs, c);
    hide Apply, VarEnroll, ReadsAs, Room, Find, OverrunAppend;
    PassIsEdit(img, lay, vs, c);
  }

  lemma OverrunIsAccepted(vs: seq<Variable>, c: Command)
    requires AllWellFormed(vs) && OverrunAppend(vs, c)
    ensures Accepted(vs, c) && Apply(vs, c).Done? && !SoundCommand(c)
    ensures var i := Find(vs, KeyFor("dbx", IMAGE_SECURITY_DATABASE));
      && |Expected(vs, c)| == |vs| && Expected(vs, c)[i].data == vs[i].data
      && Expected(vs, c)[i].dataSize == vs[i].dataSize - (AuthSize(c.file.value) - |c.file.value|)
  {
    hide Find, Str2Guid, Guid2Str, Str2Blob, Utf8Valid, TimeBlob, Lower, CertList, IsGuid, AuthSize, ParseTime;
    var i := Find(vs, KeyFor("dbx", IMAGE_SECURITY_DATABASE));
    assert vs[i] in vs;
    assert vs[i].data + [] == vs[i].data;
    RequestSize(c);
  }

  /** Twenty bytes that announce twenty-one are such a file. */
  lemma OverrunFile()
    ensures var file := Fill(0, 16) + Le(5, 4); |file| == 20 && AuthSize(file) == 21
  {
    var file := Fill(0, 16) + Le(5, 4);
    assert file[16..20] == Le(5, 4);
    Limits();
    LeInverse(5, 4);
  }

  // ---- whole runs ----

  /** Consecutive passes through one file, stopping at the first False: the shape of do_var_enroll. */
  ghost function Passes(img: Blob, cs: seq<Command>): Result<Pass>
    decreases |cs|
  {
    if cs == [] then Success(Pass(true, img))
    else if Locate(img) == Diverges then Failure(Rejected)
    else
      var p :- VarEnroll(img, cs[0]);
      if !p.ok then Success(p) else Passes(p.image, cs[1..])
  }

  /** The in-memory run: how far the commands are accepted, and the list they make. */
  datatype Reached = Reached(ok: bool, vars: seq<Variable>)

  function RunAccepted(vs: seq<Variable>, cs: seq<Command>): Reached
    decreases |cs|
  {
    if cs == [] then Reached(true, vs)
    else if !Accepted(vs, cs[0]) then Reached(false, vs)
    else RunAccepted(Expected(vs, cs[0]), cs[1..])
  }

  /** A run that is accepted to its end is the run of the commands on the list. */
  lemma {:induction false} AcceptedIsRun(vs: seq<Variable>, cs: seq<Command>)
    requires RunAccepted(vs, cs).ok
    ensures RunList(vs, cs) == Done(RunAccepted(vs, cs).vars)
    decreases |cs|
  {
    if cs != [] {
      hide Apply, SoundCommand, ArgsAccepted;
      AcceptedIsRun(Expected(vs, cs[0]), cs[1..]);
    }
  }

  /** Every intermediate list that is written fits. */
  predicate RunFits(vs: seq<Variable>, cs: seq<Command>, lay: Layout, length: nat)
    decreases |cs|
  {
    cs != [] && Accepted(vs, cs[0]) ==>
      && (Apply(vs, cs[0]).Done? ==> Room(lay, length, Expected(vs, cs[0])))
      && RunFits(Expected(vs, cs[0]), cs[1..], lay, length)
  }

  /** Every command is faithful where it is reached. */
  predicate RunFaithful(vs: seq<Variable>, cs: seq<Command>)
    decreases |cs|
  {
    cs != [] ==> Faithful(vs, cs[0]) && (Accepted(vs, cs[0]) ==> RunFaithful(Expected(vs, cs[0]), cs[1..]))
  }

  /** The same for every command but the last. */
  predicate FaithfulBefore(vs: seq<Variable>, cs: seq<Command>)
    decreases |cs|
  {
    |cs| > 1 ==> Faithful(vs, cs[0]) && (Accepted(vs, cs[0]) ==> FaithfulBefore(Expected(vs, cs[0]), cs[1..]))
  }

  /** Any number of file passes equals one in-memory run of the same commands: the run reports success
      exactly when every command is accepted, and the file reads as the list reached if and only if the last
      command is faithful as well. */
  lemma {:induction false} PassesAreRun(img: Blob, lay: Layout, vs: seq<Variable>, cs: seq<Command>)
    requires ReadsAs(img, lay, vs) && FaithfulBefore(vs, cs) && RunFits(vs, cs, lay, |img|)
    ensures Passes(img, cs).Success?
    ensures var p, m := Passes(img, cs).value, RunAccepted(vs, cs);
      p.ok == m.ok && |p.image| == |img| && (ReadsAs(p.image, lay, m.vars) <==> RunFaithful(vs, cs))
    decreases |cs|
  {
    if cs != [] {
      hide Apply, VarEnroll, Room, Accepted, Expected, Faithful, ReadsAs;
      PassIsEdit(img, lay, vs, cs[0]);
      assert Locate(img) != Diverges by { ReadsAsLocates(img, lay, vs); }
      var rest := cs[1..];
      if !Accepted(vs, cs[0]) {
        NotAccepted(vs, cs[0]);
      } else if rest != [] {
        PassesAreRun(VarEnroll(img, cs[0]).value.image, lay, Expected(vs, cs[0]), rest);
      }
    }
  }

  /** After every pass the file reads as the list reached so far. */
  ghost predicate Tracks(img: Blob, lay: Layout, vs: seq<Variable>, cs: seq<Command>)
    decreases |cs|
  {
    cs != [] && Locate(img) != Diverges && VarEnroll(img, cs[0]).Success? ==>
      var p := VarEnroll(img, cs[0]).value;
      ReadsAs(p.image, lay, Expected(vs, cs[0])) && (p.ok ==> Tracks(p.image, lay, Expected(vs, cs[0]), cs[1..]))
  }

  /** Whatever the commands: every pass of the run is an edit of the list if and only if every command is
      faithful where it is reached. */
  lemma {:induction false} RunTracks(img: Blob, lay: Layout, vs: seq<Variable>, cs: seq<Command>)
    requires ReadsAs(img, lay, vs) && RunFits(vs, cs, lay, |img|)
    ensures Tracks(img, lay, vs, cs) <==> RunFaithful(vs, cs)
    decreases |cs|
  {
    if cs != [] {
      hide Apply, VarEnroll, Room, Accepted, Expected, Faithful, ReadsAs;
      PassIsEdit(img, lay, vs, cs[0]);
      assert Locate(img) != Diverges by { ReadsAsLocates(img, lay, vs); }
      if Accepted(vs, cs[0]) && Faithful(vs, cs[0]) {
        RunTracks(VarEnroll(img, cs[0]).value.image, lay, Expected(vs, cs[0]), cs[1..]);
      }
    }
  }

  lemma NotAccepted(vs: seq<Variable>, c: Command)
    requires !Accepted(vs, c)
    ensures Expected(vs, c) == vs && Faithful(vs, c)
  {
    hide Apply, Accepted;
  }

  lemma ReadsAsLocates(img: Blob, lay: Layout, vs: seq<Variable>)
    requires ReadsAs(img, lay, vs)
    ensures Locate(img) == Found(lay)
  {
  }

  // ---- do_var_enroll ----

  /** An entry of the secure boot configuration: a GUID and the content of its file, if there is one. */
  datatype Source = Source(guid: string, file: Option<Blob>)

  datatype Config = Config(
    pk: Option<Source>, kek: Option<Source>, db: Option<Source>, dbx: Option<Source>, enable: Source)

  /** The clock readings of the five steps. */
  datatype Clock = Clock(pk: EfiTime, kek: EfiTime, db: EfiTime, dbx: EfiTime, enable: EfiTime)

  function StepFor(name: string, s: Option<Source>, now: EfiTime): seq<Command> {
    match s
    case None => []
    case Some(src) => [Command(Add, name, src.guid, None, src.file, now)]
  }

  function EnableStep(cfg: Config, clock: Clock): Command {
    Command(Add, "SecureBootEnable", cfg.enable.guid, Some(3), cfg.enable.file, clock.enable)
  }

  /** The commands of do_var_enroll in their order. */
  function StepsOf(cfg: Config, clock: Clock): seq<Command> {
    StepFor("PK", cfg.pk, clock.pk) + StepFor("KEK", cfg.kek, clock.kek) + StepFor("db", cfg.db, clock.db)
    + StepFor("dbx", cfg.dbx, clock.dbx) + [EnableStep(cfg, clock)]
  }
}
