/** The variable store as objects: VariableTimeBasedAuth, VariableStore and the drivers over them. */
module Store {
  import opened Outcomes
  import opened Bytes
  import opened Text
  import opened Guid
  import opened WellKnownGuids
  import opened Variables
  import opened StoreCodec
  import opened NormalForm
  import opened StoreOps
  import opened Enrolment

  class VariableTimeBasedAuth {
    var startId: U16
    var state: Byte
    var rsvd: Byte
    var attributes: int
    var count: U64
    var timeStamp: Bytes16
    var pkIndex: U32
    var nameSize: int
    var dataSize: int
    var vendorGuid: Bytes16
    var guidStr: string
    var nameBlob: Blob
    var data: Blob

    ghost function Value(): Variable
      reads this
    {
      Variable(startId, state, rsvd, attributes, count, timeStamp, pkIndex, nameSize, dataSize,
               vendorGuid, guidStr, nameBlob, data)
    }

    /** __init__ on a full header. */
    constructor FromHeader(header: Blob)
      requires |header| == HEADER_SIZE
      ensures Value() == ParseHeader(header)
    {
      Limits();
      FromLeInverse(header[0..2]); FromLeInverse(header[4..8]); FromLeInverse(header[8..16]);
      FromLeInverse(header[32..36]); FromLeInverse(header[36..40]); FromLeInverse(header[40..44]);
      startId := FromLe(header[0..2]);
      state := header[2];
      rsvd := header[3];
      attributes := FromLe(header[4..8]);
      count := FromLe(header[8..16]);
      timeStamp := header[16..32];
      pkIndex := FromLe(header[32..36]);
      nameSize := FromLe(header[36..40]);
      dataSize := FromLe(header[40..44]);
      vendorGuid := header[44..60];
      guidStr := Guid2Str(header[44..60]);
      nameBlob := [];
      data := [];
    }

    /** __init__ without data, then the assignments of add_variable. */
    constructor Create(r: Request, guid: Bytes16)
      ensures Value() == Created(r, guid)
    {
      startId := START_ID;
      state := VAR_ADDED;
      rsvd := 0;
      count := 0;
      pkIndex := 0;
      timeStamp := TimeBlob(r.time);
      dataSize := r.size;
      data := r.data;
      attributes := r.attributes;
      var blob := Str2Blob(r.name);
      nameBlob := blob;
      nameSize := |blob|;
      guidStr := Lower(r.guid);
      vendorGuid := guid;
    }

    method Change(r: Request)
      modifies this
      ensures Value() == Updated(old(Value()), r)
    {
      attributes := r.attributes;
      timeStamp := TimeBlob(r.time);
      if r.append {
        data := data + r.data;
        dataSize := dataSize + r.size;
      } else {
        data := r.data;
        dataSize := r.size;
      }
    }

    /** blob; struct.pack raises on a field outside 32 bits. */
    method Pack() returns (r: Result<Blob>)
      ensures r == if Packable(Value()) then Success(Encoded(Value())) else Failure(StructError)
    {
      if !(0 <= attributes < WORD && 0 <= nameSize < WORD && 0 <= dataSize < WORD) {
        return Failure(StructError);
      }
      var blob := Le(startId, 2) + [state] + [rsvd] + Le(attributes, 4) + Le(count, 8) + timeStamp
                  + Le(pkIndex, 4) + Le(nameSize, 4) + Le(dataSize, 4) + vendorGuid;
      blob := blob + nameBlob;
      blob := blob + data;
      r := Success(blob);
    }

    /** parse_body; decoding the name may raise, before the data is set. */
    method ParseBody(raw: Blob) returns (ok: bool)
      requires nameSize >= 0
      modifies this
      ensures ok == Utf8Valid(WithBody(old(Value()), raw).nameBlob)
      ensures ok ==> Value() == WithBody(old(Value()), raw)
      ensures !ok ==> Value() == WithBody(old(Value()), raw).(data := old(data))
    {
      nameBlob := Slice(raw, HEADER_SIZE, HEADER_SIZE + nameSize);
      if !Utf8Valid(nameBlob) {
        return false;
      }
      data := Slice(raw, HEADER_SIZE + nameSize, |raw|);
      ok := true;
    }
  }

  /** The values of a list of variable objects. */
  ghost function Values(vs: seq<VariableTimeBasedAuth>): (r: seq<Variable>)
    reads vs
    ensures |r| == |vs|
    ensures forall i :: 0 <= i < |vs| ==> r[i] == vs[i].Value()
  {
    seq(|vs|, i requires 0 <= i < |vs| reads vs => vs[i].Value())
  }

  class VariableStore {
    const lay: Layout
    const rawData: Blob
    var varsList: seq<VariableTimeBasedAuth>
    var varsSize: int

    /** No object is listed twice. */
    ghost predicate Valid()
      reads this
    {
      forall i, j :: 0 <= i < j < |varsList| ==> varsList[i] != varsList[j]
    }

    ghost function Repr(): set<object>
      reads this
    {
      (set v: object | v in varsList) + {this}
    }

    ghost function Contents(): seq<Variable>
      reads this, varsList
    {
      Values(varsList)
    }

    constructor (img: Blob, lay: Layout)
      ensures Valid() && varsList == [] && this.lay == lay && rawData == Raw(img, lay)
    {
      this.lay := lay;
      rawData := Raw(img, lay);
      varsList := [];
      varsSize := 0;
    }

    /** sync_to_vars_list on a new store. */
    method SyncToVarsList() returns (r: Result<()>)
      requires varsList == []
      modifies this
      ensures Valid() && fresh(varsList)
      ensures match ReadVars(rawData, STORE_HEADER, lay.storeSize)
              case Success(scan) => r.Success? && Contents() == scan.vars && varsSize == scan.next - STORE_HEADER
              case Failure(e) => r == Failure(e)
    {
      hide Guid2Str, Utf8Valid, ParseHeader, FromLe, ReadVars, Slice, Prepend, TurnAt, Align4, Values;
      var begin: nat := STORE_HEADER;
      var end := lay.storeSize;
      PrependNone(ReadVars(rawData, begin, end));
      assert Contents() == [];
      ghost var all := ReadVars(rawData, STORE_HEADER, end);
      while begin < end
        invariant Valid() && fresh(varsList)
        invariant all == Prepend(Contents(), ReadVars(rawData, begin, end))
        decreases end - begin
      {
        TurnParts(rawData, begin, end);
        ReadStep(rawData, begin, end);
        PrependFailure(Contents(), ReadVars(rawData, begin, end));
        var sig := Slice(rawData, begin, begin + 2);
        if |sig| != 2 {
          return Failure(StructError);
        }
        if FromLe(sig) != START_ID {
          break;
        }
        var header := Slice(rawData, begin, begin + HEADER_SIZE);
        if |header| != HEADER_SIZE {
          break;
        }
        ghost var before := Contents();
        ghost var turn := TurnAt(rawData, begin, end);
        var v, raw, next := RecordAt(begin, header);
        assert Contents() == before;
        begin := next;
        if v.state != VAR_ADDED {
          continue;
        }
        var ok := v.ParseBody(raw);
        if !ok {
          return Failure(UnicodeError);
        }
        Admit(v);
        assert Contents() == before + [turn.v];
        PrependMore(before, turn.v, ReadVars(rawData, begin, end));
      }
      TurnParts(rawData, begin, end);
      ReadStep(rawData, begin, end);
      PrependEnd(Contents(), begin);
      varsSize := begin - STORE_HEADER;
      r := Success(());
    }

    /** The header object of the record at an offset, the bytes it announces, and the next offset. */
    method RecordAt(begin: nat, header: Blob) returns (v: VariableTimeBasedAuth, raw: Blob, next: nat)
      requires begin < lay.storeSize && header == Slice(rawData, begin, begin + HEADER_SIZE) && |header| == HEADER_SIZE
      requires TurnAt(rawData, begin, lay.storeSize).Record?
      ensures fresh(v) && v.nameSize >= 0
      ensures TurnAt(rawData, begin, lay.storeSize) == Record(WithBody(v.Value(), raw), next)
    {
      hide Guid2Str, ParseHeader, FromLe, Slice, Align4, WithBody, TurnAt;
      TurnParts(rawData, begin, lay.storeSize);
      v := new VariableTimeBasedAuth.FromHeader(header);
      var full := v.dataSize + v.nameSize + HEADER_SIZE;
      raw := Slice(rawData, begin, begin + full);
      next := Align4(begin + full);
    }

    /** vars_list.append(v) on a variable that is not listed yet. */
    method Admit(v: VariableTimeBasedAuth)
      requires Valid() && v !in varsList
      modifies this`varsList
      ensures Valid() && varsList == old(varsList) + [v] && Contents() == old(Contents()) + [v.Value()]
    {
      varsList := varsList + [v];
    }

    /** find_var_in_list, as the index of the variable or -1. */
    method FindVarInList(name: string, guid: string) returns (i: int)
      ensures i == Find(Contents(), KeyFor(name, guid))
    {
      hide Find, Str2Blob, Lower;
      var nameBlob := Str2Blob(name);
      i := 0;
      while i < |varsList|
        invariant 0 <= i <= |varsList|
        invariant forall j :: 0 <= j < i ==> KeyOf(Contents()[j]) != KeyFor(name, guid)
      {
        if varsList[i].nameBlob == nameBlob && varsList[i].guidStr == Lower(guid) {
          assert KeyOf(Contents()[i]) == KeyFor(name, guid);
          return;
        }
        i := i + 1;
      }
      i := -1;
    }

    /** add_variable on a request whose timestamp has been chosen. */
    method AddVariable(r: Request) returns (done: Result<()>)
      requires Valid()
      modifies Repr()
      ensures |old(varsList)| <= |varsList| && varsList[..|old(varsList)|] == old(varsList)
      ensures Valid() && fresh(varsList[|old(varsList)|..])
      ensures match StoreOps.AddVariable(old(Contents()), r)
              case Success(out) => done.Success? && Contents() == out
              case Failure(e) => done == Failure(e) && Contents() == old(Contents())
    {
      hide Find, Str2Guid, Str2Blob, Lower, TimeBlob;
      var i := FindVarInList(r.name, r.guid);
      if i >= 0 {
        varsList[i].Change(r);
        assert Contents() == old(Contents())[i := Updated(old(Contents())[i], r)];
        return Success(());
      }
      var guid := Str2Guid(r.guid);
      if guid.Failure? {
        return Failure(guid.error);
      }
      var v := new VariableTimeBasedAuth.Create(r, guid.value);
      assert Contents() == old(Contents());
      Admit(v);
      done := Success(());
    }

    /** del_variable */
    method DelVariable(name: string, guid: string) returns (hit: bool)
      requires Valid()
      modifies this
      ensures Valid()
      ensures match StoreOps.DelVariable(old(Contents()), KeyFor(name, guid))
              case None => !hit && varsList == old(varsList)
              case Some(out) => hit && Contents() == out
      ensures Repr() <= old(Repr())
    {
      hide Find, Str2Blob, Lower;
      var i := FindVarInList(name, guid);
      if i < 0 {
        return false;
      }
      varsList := varsList[..i] + varsList[i + 1..];
      assert Contents() == old(Contents())[..i] + old(Contents())[i + 1..];
      hit := true;
    }

    /** The loop of sync_to_file over the variables. */
    method PackAll() returns (r: Result<Blob>)
      ensures r == if AllPackable(Contents()) then Success(EncodeAll(Contents())) else Failure(StructError)
    {
      assert EncodeAll([]) == [];
      hide Packable, Encoded, Padded, EncodeAll;
      ghost var all := Contents();
      var blob: Blob := [];
      var i := 0;
      while i < |varsList|
        invariant 0 <= i <= |varsList| == |all| && Contents() == all
        invariant AllPackable(all[..i]) && blob == EncodeAll(all[..i])
      {
        var packed := varsList[i].Pack();
        if packed.Failure? {
          assert all[i] in all && !Packable(all[i]);
          return Failure(StructError);
        }
        var vbin := PadRecord(packed.value, all[i]);
        NextRecord(all, i);
        blob := blob + vbin;
        i := i + 1;
      }
      assert all[..i] == all;
      r := Success(blob);
    }

    /** sync_to_file, as the bytes written to the output file. */
    method SyncToFile(img: Blob) returns (r: Result<Blob>)
      ensures r == if AllPackable(Contents()) then Success(Write(img, lay, Contents())) else Failure(StructError)
    {
      hide Packable, EncodeAll, SetSlice, Fill;
      var start := lay.hdrLen + STORE_HEADER;
      var size := if lay.storeSize >= STORE_HEADER then lay.storeSize - STORE_HEADER else 0;
      var buffer := SetSlice(img, start, lay.hdrLen + lay.storeSize, Fill(0xff, size));
      var blob := PackAll();
      if blob.Failure? {
        return blob;
      }
      if |blob.value| > 0 {
        buffer := SetSlice(buffer, start, start + |blob.value|, blob.value);
      }
      r := Success(buffer);
    }
  }

  lemma NextRecord(all: seq<Variable>, i: nat)
    requires i < |all| && AllPackable(all[..i]) && Packable(all[i])
    ensures AllPackable(all[..i + 1]) && EncodeAll(all[..i + 1]) == EncodeAll(all[..i]) + Padded(all[i])
  {
    EncodeAllAppend(all[..i], all[i]);
    assert all[..i + 1] == all[..i] + [all[i]];
  }

  /** The padding of one record in sync_to_file. */
  method PadRecord(vbin: Blob, ghost v: Variable) returns (r: Blob)
    requires Packable(v) && vbin == Encoded(v)
    ensures r == Padded(v)
  {
    var pad := Align4(|vbin|) - |vbin|;
    r := vbin;
    if pad > 0 {
      r := r + Fill(0xff, pad);
    }
  }

  /** The outcome of a reading that has already collected vs. */
  ghost function Prepend(vs: seq<Variable>, rest: Result<Scan>): Result<Scan> {
    match rest
    case Success(scan) => Success(Scan(vs + scan.vars, scan.next))
    case Failure(e) => Failure(e)
  }

  lemma PrependNone(rest: Result<Scan>)
    ensures Prepend([], rest) == rest
  {
    if rest.Success? {
      assert [] + rest.value.vars == rest.value.vars;
    }
  }

  lemma PrependFailure(vs: seq<Variable>, rest: Result<Scan>)
    ensures rest.Failure? ==> Prepend(vs, rest) == rest
  {
  }

  lemma PrependEnd(vs: seq<Variable>, next: nat)
    ensures Prepend(vs, Success(Scan([], next))) == Success(Scan(vs, next))
  {
    assert vs + [] == vs;
  }

  /** A turn in terms of the slices it looks at. */
  lemma TurnParts(raw: Blob, begin: nat, end: nat)
    ensures begin >= end ==> TurnAt(raw, begin, end) == Stop
    ensures begin < end ==> var sig, header := Slice(raw, begin, begin + 2), Slice(raw, begin, begin + HEADER_SIZE);
      && (|sig| != 2 ==> TurnAt(raw, begin, end) == Raise(StructError))
      && (|sig| == 2 && FromLe(sig) != START_ID ==> TurnAt(raw, begin, end) == Stop)
      && (|sig| == 2 && FromLe(sig) == START_ID && |header| != HEADER_SIZE ==> TurnAt(raw, begin, end) == Stop)
      && (|sig| == 2 && FromLe(sig) == START_ID && |header| == HEADER_SIZE ==>
            var v := ParseHeader(header);
            var stop := begin + v.dataSize + v.nameSize + HEADER_SIZE;
            && v.dataSize >= 0 && v.nameSize >= 0
            && TurnAt(raw, begin, end) == Record(WithBody(v, Slice(raw, begin, stop)), Align4(stop)))
  {
    hide Guid2Str, FromLe;
  }

  /** One turn of the reader, as a change of what remains to be read. */
  lemma ReadStep(raw: Blob, begin: nat, end: nat)
    ensures var t, all := TurnAt(raw, begin, end), ReadVars(raw, begin, end);
      && (t.Stop? ==> all == Success(Scan([], begin)))
      && (t.Raise? ==> all == Failure(t.error))
      && (t.Record? && t.v.state != VAR_ADDED ==> all == ReadVars(raw, t.next, end))
      && (t.Record? && t.v.state == VAR_ADDED && !Utf8Valid(t.v.nameBlob) ==> all == Failure(UnicodeError))
      && (t.Record? && t.v.state == VAR_ADDED && Utf8Valid(t.v.nameBlob) ==>
            all == Prepend([t.v], ReadVars(raw, t.next, end)))
  {
  }

  lemma PrependMore(vs: seq<Variable>, v: Variable, rest: Result<Scan>)
    ensures Prepend(vs + [v], rest) == Prepend(vs, Prepend([v], rest))
  {
    if rest.Success? {
      assert vs + [v] + rest.value.vars == vs + ([v] + rest.value.vars);
    }
  }

  // ---- the drivers ----

  /** find_var_info. The search loop visits offset 0 only and does not end elsewhere. */
  method FindVarInfo(img: Blob) returns (r: Result<Option<VariableStore>>)
    requires Locate(img) != Diverges
    ensures Locate(img).Raises? ==> r == Failure(Locate(img).error)
    ensures Locate(img).Unsupported? ==> r == Success(None)
    ensures Locate(img).Found? ==>
      var lay := Locate(img).lay;
      match ReadVars(Raw(img, lay), STORE_HEADER, lay.storeSize)
      case Failure(e) => r == Failure(e)
      case Success(scan) =>
        && r.Success? && r.value.Some?
        && var store := r.value.value;
           store.Valid() && fresh(store) && fresh(store.varsList) && store.lay == lay && store.Contents() == scan.vars
  {
    hide Guid2Str, ReadVars, FromLe;
    if img == [] {
      return Failure(MissingAttribute);
    }
    var hdrLen, fvSize := FromLe(img[48..50]), FromLe(img[32..40]);
    var lay := Layout(hdrLen, fvSize, 0);
    var header := Slice(Raw(img, lay), 0, STORE_HEADER);
    if |header| != STORE_HEADER {
      return Failure(MissingAttribute);
    }
    if Guid2Str(header[0..16]) != TIME_BASED_GUID {
      return Success(None);
    }
    lay := lay.(storeSize := FromLe(header[16..20]));
    var store := new VariableStore(img, lay);
    var done := store.SyncToVarsList();
    if done.Failure? {
      return Failure(done.error);
    }
    r := Success(Some(store));
  }

  /** add_variable of the module: the dispatch on the name, then the store. */
  method EnrollNamed(store: VariableStore, c: Command) returns (r: Applied<()>)
    requires store.Valid()
    modifies store.Repr()
    ensures store.Valid() && !r.Refused?
    ensures match Enroll(old(store.Contents()), c)
            case Done(out) => r.Done? && store.Contents() == out
            case Raised(e) => r == Raised(e) && store.Contents() == old(store.Contents())
            case Refused => false
  {
    hide RequestOf, StoreOps.AddVariable;
    var request := RequestOf(c);
    if request.Failure? {
      return Raised(request.error);
    }
    var done := store.AddVariable(request.value);
    if done.Failure? {
      return Raised(done.error);
    }
    r := Done(());
  }

  /** update_variable: find, delete, then add in append mode. */
  method UpdateVariable(store: VariableStore, c: Command) returns (r: Applied<()>)
    requires store.Valid() && c.kind.Update?
    modifies store.Repr()
    ensures store.Valid()
    ensures match Apply(old(store.Contents()), c)
            case Done(out) => r.Done? && store.Contents() == out
            case Raised(e) => r == Raised(e) && store.Contents() == Target(old(store.Contents()), c)
            case Refused => r.Refused? && store.Contents() == old(store.Contents())
  {
    hide Find, Enroll, KeyFor;
    var i := store.FindVarInList(c.name, c.guid);
    if i < 0 {
      return Refused;
    }
    var hit := store.DelVariable(c.name, c.guid);
    r := EnrollNamed(store, c);
  }

  /** process_var: the bytes written, if any. */
  method RunCommand(store: VariableStore, img: Blob, c: Command) returns (r: Applied<Blob>)
    requires store.Valid()
    modifies store.Repr()
    ensures r == ProcessVar(img, store.lay, old(store.Contents()), c)
  {
    hide Find, Enroll, KeyFor, Write;
    var done: Applied<()>;
    match c.kind {
      case Add => done := EnrollNamed(store, c);
      case Append => done := EnrollNamed(store, c);
      case Delete =>
        var hit := store.DelVariable(c.name, c.guid);
        done := if hit then Done(()) else Refused;
      case Update => done := UpdateVariable(store, c);
    }
    if done.Refused? {
      return Refused;
    }
    if done.Raised? {
      return Raised(done.error);
    }
    var out := store.SyncToFile(img);
    r := if out.Success? then Done(out.value) else Raised(out.error);
  }

  /** var_enroll */
  method EnrollFile(img: Blob, c: Command) returns (r: Result<Pass>)
    requires Locate(img) != Diverges
    ensures r == VarEnroll(img, c)
  {
    hide Locate, ReadVars, Raw, ProcessVar, ArgsAccepted;
    var found := FindVarInfo(img);
    if found.Failure? {
      return Failure(found.error);
    }
    if found.value.None? || !ArgsAccepted(c) {
      return Success(Pass(false, img));
    }
    var out := RunCommand(found.value.value, img, c);
    match out
    case Done(image) => r := Success(Pass(true, image));
    case Refused => r := Success(Pass(true, img));
    case Raised(_) => r := Success(Pass(false, img));
  }

  /** No pass of the run meets an image whose volume has left offset 0. */
  ghost predicate Ends(img: Blob, cs: seq<Command>)
    decreases |cs|
  {
    cs != [] ==>
      && Locate(img) != Diverges
      && (VarEnroll(img, cs[0]).Success? && VarEnroll(img, cs[0]).value.ok ==>
            Ends(VarEnroll(img, cs[0]).value.image, cs[1..]))
  }

  /** Whatever list each pass reads, what it writes fits. */
  ghost predicate WritesFit(img: Blob, lay: Layout, cs: seq<Command>)
    decreases |cs|
  {
    cs != [] ==>
      && PassFits(img, lay, cs[0])
      && (Locate(img) != Diverges && VarEnroll(img, cs[0]).Success? && VarEnroll(img, cs[0]).value.ok ==>
            WritesFit(VarEnroll(img, cs[0]).value.image, lay, cs[1..]))
  }

  predicate PassFits(img: Blob, lay: Layout, c: Command) {
    var r := ReadVars(Raw(img, lay), STORE_HEADER, lay.storeSize);
    ArgsAccepted(c) && r.Success? && Apply(r.value.vars, c).Done? && AllPackable(Apply(r.value.vars, c).value) ==>
      Fits(lay, Apply(r.value.vars, c).value)
  }

  /** A pass whose list fits leaves the store where it was. */
  lemma PassKeepsLayout(img: Blob, lay: Layout, c: Command)
    requires Locate(img) == Found(lay) && SoundLayout(img, lay) && PassFits(img, lay, c)
    ensures VarEnroll(img, c).Success? ==>
      Locate(VarEnroll(img, c).value.image) == Found(lay) && SoundLayout(VarEnroll(img, c).value.image, lay)
  {
    hide Apply, Write, Raw, ReadVars, Locate, ArgsAccepted, EncodeAll, Packable, SoundLayout, Fits;
    var r := ReadVars(Raw(img, lay), STORE_HEADER, lay.storeSize);
    if ArgsAccepted(c) && r.Success? && Apply(r.value.vars, c).Done? && AllPackable(Apply(r.value.vars, c).value) {
      WriteKeepsLayout(img, lay, Apply(r.value.vars, c).value);
    }
  }

  /** In every run whose writes fit, no pass loses the volume. */
  lemma {:induction false} FittingRunEnds(img: Blob, lay: Layout, cs: seq<Command>)
    requires Locate(img) == Found(lay) && SoundLayout(img, lay) && WritesFit(img, lay, cs)
    ensures Ends(img, cs)
    decreases |cs|
  {
    if cs != [] {
      hide Locate, VarEnroll, PassFits, SoundLayout;
      PassKeepsLayout(img, lay, cs[0]);
      if VarEnroll(img, cs[0]).Success? && VarEnroll(img, cs[0]).value.ok {
        FittingRunEnds(VarEnroll(img, cs[0]).value.image, lay, cs[1..]);
      }
    }
  }

  lemma DoneFits(img: Blob, lay: Layout, vs: seq<Variable>, c: Command)
    requires ReadsAs(img, lay, vs)
    requires Accepted(vs, c) && Apply(vs, c).Done? ==> Room(lay, |img|, Expected(vs, c))
    ensures PassFits(img, lay, c)
  {
    hide Apply, Raw, ReadVars, Locate, ArgsAccepted, EncodeAll, TotalLength, WellFormed, Packable, Packs;
    if Apply(vs, c).Done? && AllPackable(Apply(vs, c).value) {
      WellFormedSizesExact(vs);
      PacksExactly(vs, c);
      EncodedLength(Apply(vs, c).value);
    }
  }

  /** In particular when the lists of the run fit. */
  lemma {:induction false} RunWritesFit(img: Blob, lay: Layout, vs: seq<Variable>, cs: seq<Command>)
    requires ReadsAs(img, lay, vs) && FaithfulBefore(vs, cs) && RunFits(vs, cs, lay, |img|)
    ensures WritesFit(img, lay, cs)
    decreases |cs|
  {
    if cs != [] {
      hide Apply, VarEnroll, Room, Accepted, Expected, Faithful, ReadsAs, PassFits, Locate;
      var c, rest := cs[0], cs[1..];
      PassIsEdit(img, lay, vs, c);
      DoneFits(img, lay, vs, c);
      if Accepted(vs, c) && rest != [] {
        RunWritesFit(VarEnroll(img, c).value.image, lay, Expected(vs, c), rest);
      }
    }
  }

  /** One optional step of do_var_enroll on the temporary file. */
  method EnrollStep(img: Blob, args: seq<Command>, ghost rest: seq<Command>) returns (r: Result<Pass>)
    requires |args| <= 1 && Ends(img, args + rest)
    ensures Passes(img, args + rest)
         == (if r.Success? && r.value.ok then Passes(r.value.image, rest) else r)
    ensures r.Success? && r.value.ok ==> Ends(r.value.image, rest)
  {
    hide Locate, VarEnroll;
    if args == [] {
      assert args + rest == rest;
      return Success(Pass(true, img));
    }
    assert (args + rest)[0] == args[0] && (args + rest)[1..] == rest;
    r := EnrollFile(img, args[0]);
  }

  /** do_var_enroll: the passes over the temporary file in their order, stopping at the first
      failure. */
  method DoVarEnroll(input: Blob, cfg: Config, clock: Clock) returns (r: Result<Pass>)
    requires Ends(input, StepsOf(cfg, clock))
    ensures r == Passes(input, StepsOf(cfg, clock))
  {
    hide Locate, VarEnroll, StepFor, EnableStep, Ends;
    var pk, kek := StepFor("PK", cfg.pk, clock.pk), StepFor("KEK", cfg.kek, clock.kek);
    var db, dbx := StepFor("db", cfg.db, clock.db), StepFor("dbx", cfg.dbx, clock.dbx);
    var enable := [EnableStep(cfg, clock)];
    StepsAreOptional(cfg, clock);
    assert StepsOf(cfg, clock) == pk + (kek + (db + (dbx + (enable + []))));
    r := EnrollStep(input, pk, kek + (db + (dbx + (enable + []))));
    if r.Failure? || !r.value.ok { return; }
    r := EnrollStep(r.value.image, kek, db + (dbx + (enable + [])));
    if r.Failure? || !r.value.ok { return; }
    r := EnrollStep(r.value.image, db, dbx + (enable + []));
    if r.Failure? || !r.value.ok { return; }
    r := EnrollStep(r.value.image, dbx, enable + []);
    if r.Failure? || !r.value.ok { return; }
    r := EnrollStep(r.value.image, enable, []);
  }

  lemma StepsAreOptional(cfg: Config, clock: Clock)
    ensures |StepFor("PK", cfg.pk, clock.pk)| <= 1 && |StepFor("KEK", cfg.kek, clock.kek)| <= 1
    ensures |StepFor("db", cfg.db, clock.db)| <= 1 && |StepFor("dbx", cfg.dbx, clock.dbx)| <= 1
  {
  }
}
