/** Edits of the variable list (VariableStore.add_variable, del_variable, find_var_in_list, the
    enroll_* functions, update_variable) and the map they implement. */
module StoreOps {
  import opened Outcomes
  import opened Bytes
  import opened Text
  import opened Guid
  import opened WellKnownGuids
  import opened Variables

  const AUTH_ATTRIBUTES := 0x27 // non-volatile, boot, runtime, time-based authenticated

  const NO_TIME := EfiTime(0, 0, 0, 0, 0, 0, 0, 0, 0, 0, 0)

  // ---- keys and lookup ----

  type Key = (Blob, string)

  function KeyOf(v: Variable): Key { (v.nameBlob, v.guidStr) }

  function KeyFor(name: string, guid: string): Key { (Str2Blob(name), Lower(guid)) }

  /** Two commands mean the same variable exactly when they give the same name and the same GUID up to case. */
  lemma KeysAreNames(name: string, guid: string, other: string, its: string)
    ensures KeyFor(name, guid) == KeyFor(other, its) <==> name == other && Lower(guid) == Lower(its)
  {
    hide Str2Blob, Lower;
    NamesAreKeys(name, other);
  }

  /** Index of the first variable with key k, -1 if there is none. */
  function Find(vs: seq<Variable>, k: Key): (i: int)
    ensures -1 <= i < |vs|
    ensures i >= 0 ==> KeyOf(vs[i]) == k && forall j :: 0 <= j < i ==> KeyOf(vs[j]) != k
    ensures i < 0 ==> forall j :: 0 <= j < |vs| ==> KeyOf(vs[j]) != k
  {
    if vs == [] then -1
    else if KeyOf(vs[0]) == k then 0
    else
      var r := Find(vs[1..], k);
      assert forall j :: 1 <= j < |vs| ==> vs[j] == vs[1..][j - 1];
      if r < 0 then -1 else r + 1
  }

  // ---- add_variable ----

  /** The arguments of VariableStore.add_variable, with the timestamp already chosen. */
  datatype Request = Request(
    name: string, guid: string, attributes: int, time: EfiTime, data: Blob, size: int, append: bool)

  /** The timestamp used: the given one, else the clock if the attributes ask for
      authentication (bit 0x20), else zero. */
  function TimeFor(attributes: int, given: Option<EfiTime>, now: EfiTime): EfiTime {
    match given
    case Some(t) => t
    case None => if attributes / 0x20 % 2 == 1 then now else NO_TIME
  }

  /** VariableTimeBasedAuth.update */
  function Updated(v: Variable, r: Request): Variable {
    v.(attributes := r.attributes, timeStamp := TimeBlob(r.time),
       data := if r.append then v.data + r.data else r.data,
       dataSize := if r.append then v.dataSize + r.size else r.size)
  }

  /** The variable that add_variable creates. */
  function Created(r: Request, g: Bytes16): Variable {
    var blob := Str2Blob(r.name);
    Variable(START_ID, VAR_ADDED, 0, r.attributes, 0, TimeBlob(r.time), 0, |blob|, r.size, g,
             Lower(r.guid), blob, r.data)
  }

  function AddVariable(vs: seq<Variable>, r: Request): Result<seq<Variable>> {
    var i := Find(vs, KeyFor(r.name, r.guid));
    if i >= 0 then Success(vs[i := Updated(vs[i], r)])
    else
      var g :- Str2Guid(r.guid);
      Success(vs + [Created(r, g)])
  }

  /** The list after del_variable, None if the variable is missing. */
  function DelVariable(vs: seq<Variable>, k: Key): Option<seq<Variable>> {
    var i := Find(vs, k);
    if i < 0 then None else Some(vs[..i] + vs[i + 1..])
  }

  // ---- the payloads of the reserved variables ----

  /** EfiSignatureList.blob holding one EfiSignatureData (section 32.4.1 of UEFI 2.10). */
  function SignatureList(sigType: Bytes16, owner: Bytes16, cert: Blob): Blob {
    sigType + Le(28 + 16 + |cert|, 4) + Le(0, 4) + Le(16 + |cert|, 4) + owner + cert
  }

  /** create_pk_x509_cert_list followed by blob */
  function CertList(cert: Blob, owner: string): Result<Blob> {
    var o :- Str2Guid(owner);
    var x509 :- Str2Guid(CERT_X509);
    if 28 + 16 + |cert| >= WORD then Failure(StructError)
    else Success(SignatureList(x509, o, cert))
  }

  /** EfiVariableAuthentication2.authinfo_2_size */
  function AuthSize(file: Blob): nat
    requires |file| >= 20
  {
    FromLe(file[16..20]) + 16
  }

  /** The dispatch of add_variable on the lower-cased name, down to the store request. */
  function RequestFor(name: string, guid: string, file: Option<Blob>, attributes: int, append: bool, now: EfiTime)
    : Result<Request>
  {
    if file.None? then Failure(Rejected)
    else
      var bytes := file.value;
      var id := Lower(name);
      var authNow := TimeFor(AUTH_ATTRIBUTES, None, now);
      if id == "pk" then
        if append then Failure(Rejected)
        else
          var blob :- CertList(bytes, guid);
          Success(Request("PK", EFI_GLOBAL_VARIABLE, AUTH_ATTRIBUTES, authNow, blob, 28 + 16 + |bytes|, false))
      else if id == "kek" then
        var blob :- CertList(bytes, guid);
        Success(Request("KEK", EFI_GLOBAL_VARIABLE, AUTH_ATTRIBUTES, authNow, blob, 28 + 16 + |bytes|, append))
      else if id == "db" then
        var blob :- CertList(bytes, guid);
        Success(Request("db", IMAGE_SECURITY_DATABASE, AUTH_ATTRIBUTES, authNow, blob, 28 + 16 + |bytes|, append))
      else if id == "dbx" then
        if |bytes| < 20 then Failure(Rejected)
        else
          Success(Request("dbx", IMAGE_SECURITY_DATABASE, AUTH_ATTRIBUTES,
                          TimeFor(AUTH_ATTRIBUTES, Some(ParseTime(bytes[..16])), now),
                          Slice(bytes, AuthSize(bytes), |bytes|), |bytes| - AuthSize(bytes), append))
      else
        Success(Request(name, guid, attributes, TimeFor(attributes, None, now), bytes, |bytes|, append))
  }

  // ---- the four operations of process_var ----

  datatype Kind = Add | Append | Delete | Update

  /** One command: the operation with its arguments, and the clock reading it may use. */
  datatype Command = Command(
    kind: Kind, name: string, guid: string, attributes: Option<int>, file: Option<Blob>, now: EfiTime)

  /** The return value True with a new state, the return value False, or an exception. */
  datatype Applied<+T> = Done(value: T) | Refused | Raised(error: Error)

  function AttributesOf(c: Command): int {
    if c.attributes.Some? then c.attributes.value else 0
  }

  function RequestOf(c: Command): Result<Request> {
    RequestFor(c.name, c.guid, c.file, AttributesOf(c), c.kind.Append? || c.kind.Update?, c.now)
  }

  function Enroll(vs: seq<Variable>, c: Command): Applied<seq<Variable>> {
    match RequestOf(c)
    case Failure(e) => Raised(e)
    case Success(r) =>
      match AddVariable(vs, r)
      case Failure(e) => Raised(e)
      case Success(out) => Done(out)
  }

  /** The list after one command. */
  function Apply(vs: seq<Variable>, c: Command): Applied<seq<Variable>> {
    match c.kind
    case Add => Enroll(vs, c)
    case Append => Enroll(vs, c)
    case Delete =>
      (match DelVariable(vs, KeyFor(c.name, c.guid))
       case None => Refused
       case Some(out) => Done(out))
    case Update =>
      match DelVariable(vs, KeyFor(c.name, c.guid))
      case None => Refused
      case Some(out) => Enroll(out, c)
  }

  // ---- the map view ----

  ghost predicate Unique(vs: seq<Variable>) {
    forall i, j :: 0 <= i < j < |vs| ==> KeyOf(vs[i]) != KeyOf(vs[j])
  }

  ghost function View(vs: seq<Variable>): (m: map<Key, Variable>)
    ensures forall k :: k in m <==> Find(vs, k) >= 0
    ensures forall k :: k in m ==> m[k] == vs[Find(vs, k)]
  {
    var keys := set i | 0 <= i < |vs| :: KeyOf(vs[i]);
    map k | k in keys && Find(vs, k) >= 0 :: vs[Find(vs, k)]
  }

  /** Insert, overwrite or append on the map. */
  function MapEnroll(m: map<Key, Variable>, c: Command): Applied<map<Key, Variable>> {
    match RequestOf(c)
    case Failure(e) => Raised(e)
    case Success(r) =>
      var k := KeyFor(r.name, r.guid);
      if k in m then Done(m[k := Updated(m[k], r)])
      else
        match Str2Guid(r.guid)
        case Failure(e) => Raised(e)
        case Success(g) => Done(m[k := Created(r, g)])
  }

  /** The meaning of a command on the map: insert or overwrite, concatenate, remove, replace. */
  function MapApply(m: map<Key, Variable>, c: Command): Applied<map<Key, Variable>> {
    var k := KeyFor(c.name, c.guid);
    match c.kind
    case Add => MapEnroll(m, c)
    case Append => MapEnroll(m, c)
    case Delete => if k in m then Done(m - {k}) else Refused
    case Update => if k in m then MapEnroll(m - {k}, c) else Refused
  }

  /** A list command and a map command with the same outcome. */
  ghost predicate SameOutcome(a: Applied<seq<Variable>>, b: Applied<map<Key, Variable>>) {
    match a
    case Done(vs) => Unique(vs) && b == Done(View(vs))
    case Refused => b.Refused?
    case Raised(e) => b == Raised(e)
  }

  /** The first index with a key is the only one. */
  lemma FindIs(vs: seq<Variable>, k: Key, i: nat)
    requires Unique(vs) && i < |vs| && KeyOf(vs[i]) == k
    ensures Find(vs, k) == i
  {
    hide Find;
  }

  lemma ReplaceIsUpdate(vs: seq<Variable>, i: nat, v: Variable)
    requires Unique(vs) && i < |vs| && KeyOf(v) == KeyOf(vs[i])
    ensures Unique(vs[i := v]) && View(vs[i := v]) == View(vs)[KeyOf(v) := v]
  {
    hide View, Find, KeyOf;
    var out := vs[i := v];
    assert Unique(out);
    var a, b := View(out), View(vs)[KeyOf(v) := v];
    forall k ensures k in a <==> k in b
             ensures k in a ==> a[k] == b[k]
    {
      var j := Find(vs, k);
      if j >= 0 { FindIs(out, k, j); }
      if KeyOf(v) == k { FindIs(out, k, i); FindIs(vs, k, i); }
      if Find(out, k) >= 0 { FindIs(vs, k, Find(out, k)); }
    }
  }

  lemma AppendIsInsert(vs: seq<Variable>, v: Variable)
    requires Unique(vs) && Find(vs, KeyOf(v)) < 0
    ensures Unique(vs + [v]) && View(vs + [v]) == View(vs)[KeyOf(v) := v]
  {
    hide View, Find, KeyOf;
    var out := vs + [v];
    assert Unique(out);
    var a, b := View(out), View(vs)[KeyOf(v) := v];
    forall k ensures k in a <==> k in b
             ensures k in a ==> a[k] == b[k]
    {
      var j := Find(vs, k);
      if j >= 0 { FindIs(out, k, j); }
      if KeyOf(v) == k { FindIs(out, k, |vs|); }
      var l := Find(out, k);
      if 0 <= l < |vs| { FindIs(vs, k, l); }
    }
  }

  lemma DropIsRemove(vs: seq<Variable>, i: nat)
    requires Unique(vs) && i < |vs|
    ensures Unique(vs[..i] + vs[i + 1..])
    ensures View(vs[..i] + vs[i + 1..]) == View(vs) - {KeyOf(vs[i])}
  {
    hide View, Find, KeyOf;
    var out := vs[..i] + vs[i + 1..];
    assert Unique(out);
    var a, b := View(out), View(vs) - {KeyOf(vs[i])};
    forall k ensures k in a <==> k in b
             ensures k in a ==> a[k] == b[k]
    {
      var j := Find(vs, k);
      if k == KeyOf(vs[i]) { FindIs(vs, k, i); }
      else if j >= 0 { FindIs(out, k, if j < i then j else j - 1); }
      var l := Find(out, k);
      if l >= 0 { FindIs(vs, k, if l < i then l else l + 1); }
    }
  }

  lemma EnrollRefines(vs: seq<Variable>, c: Command)
    requires Unique(vs)
    ensures SameOutcome(Enroll(vs, c), MapEnroll(View(vs), c))
  {
    hide RequestFor, Str2Guid, Str2Blob, Lower, TimeBlob, View;
    if RequestOf(c).Success? {
      var r := RequestOf(c).value;
      var k := KeyFor(r.name, r.guid);
      var i := Find(vs, k);
      if i >= 0 {
        ReplaceIsUpdate(vs, i, Updated(vs[i], r));
      } else if Str2Guid(r.guid).Success? {
        AppendIsInsert(vs, Created(r, Str2Guid(r.guid).value));
      }
    }
  }

  /** Each command on a list with unique keys is the command on its map, and keeps keys unique. */
  lemma ApplyRefines(vs: seq<Variable>, c: Command)
    requires Unique(vs)
    ensures SameOutcome(Apply(vs, c), MapApply(View(vs), c))
  {
    hide RequestFor, Str2Blob, Lower, View, Enroll, MapEnroll;
    var k := KeyFor(c.name, c.guid);
    EnrollRefines(vs, c);
    var i := Find(vs, k);
    if i >= 0 {
      DropIsRemove(vs, i);
      EnrollRefines(vs[..i] + vs[i + 1..], c);
    }
  }

  /** A run of commands; refused commands change nothing and the run goes on. */
  function RunList(vs: seq<Variable>, cs: seq<Command>): Applied<seq<Variable>>
    decreases |cs|
  {
    if cs == [] then Done(vs)
    else
      match Apply(vs, cs[0])
      case Done(out) => RunList(out, cs[1..])
      case Refused => RunList(vs, cs[1..])
      case Raised(e) => Raised(e)
  }

  function RunMap(m: map<Key, Variable>, cs: seq<Command>): Applied<map<Key, Variable>>
    decreases |cs|
  {
    if cs == [] then Done(m)
    else
      match MapApply(m, cs[0])
      case Done(out) => RunMap(out, cs[1..])
      case Refused => RunMap(m, cs[1..])
      case Raised(e) => Raised(e)
  }

  /** The store refines a map over every sequence of commands. */
  lemma {:induction false} RunRefines(vs: seq<Variable>, cs: seq<Command>)
    requires Unique(vs)
    ensures SameOutcome(RunList(vs, cs), RunMap(View(vs), cs))
    decreases |cs|
  {
    if cs != [] {
      hide Apply, MapApply, View;
      ApplyRefines(vs, cs[0]);
      match Apply(vs, cs[0])
      case Done(out) => RunRefines(out, cs[1..]);
      case Refused => RunRefines(vs, cs[1..]);
      case Raised(_) =>
    }
  }

  /** The keys a command can touch: the one it names and the one it stores under. */
  function Touched(c: Command): set<Key> {
    (if c.kind.Delete? || c.kind.Update? then {KeyFor(c.name, c.guid)} else {})
    + (if !c.kind.Delete? && RequestOf(c).Success?
       then {KeyFor(RequestOf(c).value.name, RequestOf(c).value.guid)} else {})
  }

  lemma MapKeepsOthers(m: map<Key, Variable>, c: Command, k: Key)
    requires MapApply(m, c).Done? && k !in Touched(c)
    ensures k in MapApply(m, c).value <==> k in m
    ensures k in m ==> MapApply(m, c).value[k] == m[k]
  {
    hide RequestFor, Str2Guid, Str2Blob, Lower;
  }

  /** A command on the list leaves every other key as it was. */
  lemma OtherKeysKept(vs: seq<Variable>, c: Command, k: Key)
    requires Unique(vs) && Apply(vs, c).Done? && k !in Touched(c)
    ensures var out := Apply(vs, c).value;
      && (k in View(out) <==> k in View(vs))
      && (k in View(vs) ==> View(out)[k] == View(vs)[k])
  {
    hide Apply, MapApply, View, Unique, Touched;
    ApplyRefines(vs, c);
    MapKeepsOthers(View(vs), c, k);
  }
}
