/** What the commands of process_var leave in the store, stated from the command line arguments and the
    files alone: names, vendor GUIDs, attributes, timestamps, data and their order. */
module Effects {
  import opened Outcomes
  import opened Bytes
  import opened Text
  import opened Guid
  import opened WellKnownGuids
  import opened Variables
  import opened StoreCodec
  import opened NormalForm
  import opened StoreOps
  import opened SignatureDb
  import opened Enrolment

  // ---- what the documentation of the tool promises ----

  predicate IsCertificate(c: Command) { Lower(c.name) in ["pk", "kek", "db"] }

  /** The name and the vendor GUID under which a command stores: those of the specification for the secure
      boot variables, the given ones otherwise. */
  predicate StoredUnder(c: Command, name: string, guid: string) {
    var id := Lower(c.name);
    if id == "pk" then name == "PK" && guid == "8BE4DF61-93CA-11d2-AA0D-00E098032B8C"
    else if id == "kek" then name == "KEK" && guid == "8BE4DF61-93CA-11d2-AA0D-00E098032B8C"
    else if id == "db" then name == "db" && guid == "d719b2cb-3d3a-4596-a3bc-dad00e67656f"
    else if id == "dbx" then name == "dbx" && guid == "d719b2cb-3d3a-4596-a3bc-dad00e67656f"
    else name == c.name && guid == c.guid
  }

  /** A signature database that holds one X.509 certificate under its owner. */
  predicate OneCertificate(blob: Blob, cert: Blob, owner: string) {
    var d := ReadDatabase(blob);
    d.Some? && |d.value| == 1 && IsX509(d.value[0], cert, owner)
  }

  predicate IsX509(s: Signature, cert: Blob, owner: string) {
    && |s.sigType| == 16 && Guid2Str(s.sigType) == "a5c059a1-94e4-4aa7-87b5-ab155c2bf072"
    && |s.owner| == 16 && |owner| >= 36 && Guid2Str(s.owner) == Lower(owner[..36])
    && s.data == cert
  }

  /** The bytes that a command's file contributes: a certificate, what follows the authentication header of a
      dbx file (16 bytes of time and as many as its next four bytes say), or the file. */
  predicate IsPayload(c: Command, p: Blob) {
    c.file.Some?
    && var file := c.file.value;
       if IsCertificate(c) then OneCertificate(p, file, c.guid)
       else if Lower(c.name) == "dbx" then |file| >= 20 && p == Slice(file, 16 + FromLe(file[16..20]), |file|)
       else p == file
  }

  /** Non-volatile, boot, runtime and time-based authenticated, or the given attributes. */
  function WantedAttributes(c: Command): int {
    if IsCertificate(c) || Lower(c.name) == "dbx" then 0x27
    else if c.attributes.Some? then c.attributes.value else 0
  }

  /** The timestamp: that of the dbx file, the clock for an authenticated variable, zero otherwise. */
  predicate IsTime(c: Command, b: Blob) {
    if Lower(c.name) == "dbx" then c.file.Some? && |c.file.value| >= 16 && b == c.file.value[..16]
    else if WantedAttributes(c) / 0x20 % 2 == 1 then b == TimeBlob(c.now)
    else b == Fill(0, 16)
  }

  /** The size that goes with the payload; negative for an overrunning dbx header. */
  function WantedSize(c: Command, p: Blob): int {
    if Lower(c.name) == "dbx" && c.file.Some? && |c.file.value| >= 20
    then |c.file.value| - 16 - FromLe(c.file.value[16..20])
    else |p|
  }

  /** Variable v is what the command must leave where data was stored before with the given size. */
  predicate Leaves(c: Command, v: Variable, data: Blob, size: int) {
    && data <= v.data && IsPayload(c, v.data[|data|..])
    && v.dataSize == size + WantedSize(c, v.data[|data|..])
    && v.attributes == WantedAttributes(c) && IsTime(c, v.timeStamp)
  }

  // ---- the request of a command is that ----

  lemma NoTimeIsZero()
    ensures TimeBlob(NO_TIME) == Fill(0, 16)
  {
    ZeroLe(2);
    ZeroLe(4);
    hide Le;
  }

  lemma {:induction false} ZeroLe(w: nat)
    ensures Le(0, w) == Fill(0, w)
  {
    if w != 0 { ZeroLe(w - 1); }
  }

  lemma CertListHolds(cert: Blob, owner: string)
    requires CertList(cert, owner).Success?
    ensures OneCertificate(CertList(cert, owner).value, cert, owner)
  {
    hide ReadDatabase, SignatureList, Guid2Str, PackFields, TailIgnored, GuidShape, VersionAndVariant, Lower;
    var t, o := Str2Guid(CERT_X509).value, Str2Guid(owner).value;
    ReadList(t, o, cert, []);
    EmptyDatabase();
    assert SignatureList(t, o, cert) + [] == SignatureList(t, o, cert);
    Str2GuidInverse(CERT_X509);
    Str2GuidInverse(owner);
    X509IsLower();
    assert CERT_X509[..36] == CERT_X509;
  }

  lemma CertRequest(c: Command)
    requires RequestOf(c).Success? && IsCertificate(c)
    ensures var r := RequestOf(c).value;
      && StoredUnder(c, r.name, r.guid) && r.attributes == 0x27 && r.time == c.now
      && IsPayload(c, r.data) && r.size == |r.data|
      && r.append == (c.kind.Append? || c.kind.Update?) && (Lower(c.name) == "pk" ==> !r.append)
  {
    hide Lower, CertList, OneCertificate, AuthSize, ParseTime;
    CertListHolds(c.file.value, c.guid);
    SignatureListSize(c.file.value, c.guid);
  }

  lemma DbxRequest(c: Command)
    requires RequestOf(c).Success? && Lower(c.name) == "dbx"
    ensures var r := RequestOf(c).value;
      && StoredUnder(c, r.name, r.guid) && r.attributes == 0x27 && IsTime(c, TimeBlob(r.time))
      && IsPayload(c, r.data) && r.size == WantedSize(c, r.data)
      && r.append == (c.kind.Append? || c.kind.Update?)
  {
    hide Lower, CertList, ParseTime, FromLe, TimeBlob;
    ParsedTimeInverse(c.file.value[..16]);
  }

  lemma PlainRequestIs(c: Command)
    requires RequestOf(c).Success? && !IsCertificate(c) && Lower(c.name) != "dbx"
    ensures var r := RequestOf(c).value;
      && StoredUnder(c, r.name, r.guid) && r.attributes == WantedAttributes(c) && IsTime(c, TimeBlob(r.time))
      && IsPayload(c, r.data) && r.size == |r.data|
      && r.append == (c.kind.Append? || c.kind.Update?)
  {
    hide Lower, CertList, ParseTime, TimeBlob, AuthSize;
    NoTimeIsZero();
  }

  /** The three together. */
  predicate Asks(c: Command, r: Request) {
    && StoredUnder(c, r.name, r.guid) && r.attributes == WantedAttributes(c) && IsTime(c, TimeBlob(r.time))
    && IsPayload(c, r.data) && r.size == WantedSize(c, r.data)
    && r.append == (c.kind.Append? || c.kind.Update?) && (Lower(c.name) == "pk" ==> !r.append)
  }

  lemma RequestAsks(c: Command)
    requires RequestOf(c).Success?
    ensures Asks(c, RequestOf(c).value)
  {
    hide RequestOf, Lower, IsPayload, StoredUnder, TimeBlob, FromLe;
    if IsCertificate(c) {
      CertRequest(c);
    } else if Lower(c.name) == "dbx" {
      DbxRequest(c);
    } else {
      PlainRequestIs(c);
    }
  }

  // ---- what a command leaves in the list ----

  /** The list `out` is `from` with the variable under the key changed in its place, or with a new one behind. */
  predicate Enrols(c: Command, from: seq<Variable>, out: seq<Variable>, k: Key) {
    var i := Find(from, k);
    if i >= 0 then
      && |out| == |from| && (forall j :: 0 <= j < |from| && j != i ==> out[j] == from[j])
      && SameHead(from[i], out[i])
      && (if c.kind.Add? then Leaves(c, out[i], [], 0) else Leaves(c, out[i], from[i].data, from[i].dataSize))
    else
      && |out| == |from| + 1 && out[..|from|] == from
      && IsNew(out[|from|], k) && Leaves(c, out[|from|], [], 0)
  }

  /** What an update does not touch. */
  predicate SameHead(v: Variable, w: Variable) {
    w == v.(attributes := w.attributes, timeStamp := w.timeStamp, data := w.data, dataSize := w.dataSize)
  }

  /** The fields of a new variable that the command line does not choose: start identifier 0x55AA, state 0x3F. */
  predicate IsNew(v: Variable, k: Key) {
    && v.startId == 0x55aa && v.state == 0x3f && v.rsvd == 0 && v.count == 0 && v.pkIndex == 0
    && v.nameBlob == k.0 && v.nameSize == |k.0| && v.guidStr == k.1
    && |k.1| >= 36 && Guid2Str(v.vendorGuid) == k.1[..36]
  }

  lemma EnrollEffect(vs: seq<Variable>, c: Command, name: string, guid: string)
    requires Enroll(vs, c).Done? && StoredUnder(c, name, guid) && !c.kind.Delete?
    ensures Enrols(c, vs, Enroll(vs, c).value, KeyFor(name, guid))
    ensures Lower(c.name) == "pk" ==> c.kind.Add?
  {
    hide RequestOf, Find, Str2Guid, Guid2Str, Str2Blob, TimeBlob, IsPayload, IsTime, WantedSize, WantedAttributes;
    var r := RequestOf(c).value;
    RequestAsks(c);
    SameDestination(c, name, guid, r.name, r.guid);
    var k := KeyFor(name, guid);
    var i := Find(vs, k);
    if i >= 0 {
      var d := vs[i].data;
      assert (d + r.data)[|d|..] == r.data && r.data[0..] == r.data;
    } else {
      Str2GuidInverse(r.guid);
      assert r.data[0..] == r.data;
      assert |r.guid| >= 36 by { AcceptedLength(r.guid); }
      assert Lower(r.guid)[..36] == Lower(r.guid[..36]);
    }
  }

  lemma AcceptedLength(guid: string)
    requires Str2Guid(guid).Success?
    ensures |guid| >= 36
  {
  }

  lemma SameDestination(c: Command, a: string, g: string, b: string, h: string)
    requires StoredUnder(c, a, g) && StoredUnder(c, b, h)
    ensures a == b && g == h
  {
    hide Lower;
  }

  /** What each of the four commands does to the list. Delete removes the first variable with the key; add
      overwrites or creates; append adds to the data that is there; update deletes first. */
  lemma CommandEffect(vs: seq<Variable>, c: Command, name: string, guid: string)
    requires Apply(vs, c).Done? && StoredUnder(c, name, guid)
    ensures var out, i := Apply(vs, c).value, Find(vs, KeyFor(c.name, c.guid));
      match c.kind
      case Delete => i >= 0 && out == vs[..i] + vs[i + 1..]
      case Update => i >= 0 && Enrols(c, vs[..i] + vs[i + 1..], out, KeyFor(name, guid))
      case _ => Enrols(c, vs, out, KeyFor(name, guid))
    ensures Lower(c.name) == "pk" ==> !c.kind.Append? && !c.kind.Update?
  {
    hide Find, KeyFor, Enroll, Enrols, StoredUnder, Lower;
    var i := Find(vs, KeyFor(c.name, c.guid));
    if !c.kind.Delete? {
      EnrollEffect(if c.kind.Update? then vs[..i] + vs[i + 1..] else vs, c, name, guid);
    }
  }

  /** Updating an ordinary variable replaces its data: with unique keys the one that was there is gone. */
  lemma UpdateReplaces(vs: seq<Variable>, c: Command)
    requires Unique(vs) && Apply(vs, c).Done? && c.kind.Update? && !Reserved(c.name)
    ensures var out := Apply(vs, c).value;
      out != [] && Leaves(c, out[|out| - 1], [], 0) && out[|out| - 1].data == c.file.value
  {
    hide Find, KeyFor, Leaves, IsTime, WantedSize, Lower;
    CommandEffect(vs, c, c.name, c.guid);
    var k := KeyFor(c.name, c.guid);
    var i := Find(vs, k);
    DeletedIsGone(vs, i, k);
    LeavesFile(c, Apply(vs, c).value[|vs| - 1]);
  }

  lemma LeavesFile(c: Command, v: Variable)
    requires !Reserved(c.name) && Leaves(c, v, [], 0)
    ensures c.file.Some? && v.data == c.file.value
  {
    hide Lower, IsTime, WantedSize;
    assert v.data[0..] == v.data;
  }

  lemma DeletedIsGone(vs: seq<Variable>, i: nat, k: Key)
    requires Unique(vs) && i < |vs| && StoreOps.KeyOf(vs[i]) == k
    ensures Find(vs[..i] + vs[i + 1..], k) < 0
  {
    hide StoreOps.KeyOf;
  }

  /** The signatures read are the given X.509 certificates with their owners and then one more. */
  predicate AddedLast(read: Option<seq<Signature>>, cs: seq<Cert>, cert: Blob, owner: string) {
    && read.Some? && |read.value| == |cs| + 1
    && (forall j :: 0 <= j < |cs| ==>
          read.value[j].owner == cs[j].owner && read.value[j].data == cs[j].data
          && |read.value[j].sigType| == 16
          && Guid2Str(read.value[j].sigType) == "a5c059a1-94e4-4aa7-87b5-ab155c2bf072")
    && IsX509(read.value[|cs|], cert, owner)
  }

  /** Appending a certificate to KEK or db stores the database with that certificate added last. */
  lemma AppendAddsCertificate(vs: seq<Variable>, c: Command, name: string, guid: string, cs: seq<Cert>)
    requires Apply(vs, c).Done? && c.kind.Append? && IsCertificate(c) && StoredUnder(c, name, guid)
    requires Find(vs, KeyFor(name, guid)) >= 0 && Encodable(cs) && Str2Guid(CERT_X509).Success?
    requires vs[Find(vs, KeyFor(name, guid))].data == Database(Str2Guid(CERT_X509).value, cs)
    ensures Find(vs, KeyFor(name, guid)) < |Apply(vs, c).value| && c.file.Some?
    ensures AddedLast(ReadDatabase(Apply(vs, c).value[Find(vs, KeyFor(name, guid))].data), cs, c.file.value, c.guid)
  {
    hide Find, Str2Guid, Guid2Str, ReadDatabase, Lower, Database, SignatureDb.Expected, Apply, KeyFor, StoredUnder,
      Updated, CertList;
    AppendUpdates(vs, c, name, guid);
    CertRequestData(c);
    CertOwner(c.file.value, c.guid);
    hide RequestOf;
    var i, r := Find(vs, KeyFor(name, guid)), RequestOf(c).value;
    var t, o := Str2Guid(CERT_X509).value, Str2Guid(c.guid).value;
    AppendedCertIsRead(vs[i], cs, r, c.guid, c.file.value);
    ExpectedAt(t, cs + [Cert(o, c.file.value)]);
    X509Printed();
  }

  lemma AppendUpdates(vs: seq<Variable>, c: Command, name: string, guid: string)
    requires Apply(vs, c).Done? && c.kind.Append? && StoredUnder(c, name, guid) && Find(vs, KeyFor(name, guid)) >= 0
    ensures RequestOf(c).Success? && RequestOf(c).value.append
    ensures var i := Find(vs, KeyFor(name, guid));
      i < |Apply(vs, c).value| && Apply(vs, c).value[i] == Updated(vs[i], RequestOf(c).value)
  {
    hide RequestOf, Find, Str2Guid, Str2Blob, TimeBlob, Lower, IsPayload, IsTime, WantedSize, WantedAttributes, Updated;
    var r := RequestOf(c).value;
    RequestAsks(c);
    SameDestination(c, name, guid, r.name, r.guid);
  }

  lemma CertOwner(cert: Blob, owner: string)
    requires CertList(cert, owner).Success?
    ensures Str2Guid(owner).Success? && |owner| >= 36 && Guid2Str(Str2Guid(owner).value) == Lower(owner[..36])
  {
    hide Str2Guid, Guid2Str, Lower;
    Str2GuidInverse(owner);
    AcceptedLength(owner);
  }

  lemma X509Printed()
    requires Str2Guid(CERT_X509).Success?
    ensures Guid2Str(Str2Guid(CERT_X509).value) == "a5c059a1-94e4-4aa7-87b5-ab155c2bf072"
  {
    hide Guid2Str, Str2Guid, Lower;
    Str2GuidInverse(CERT_X509);
    X509IsLower();
    assert CERT_X509[..36] == CERT_X509;
  }

  lemma CertRequestData(c: Command)
    requires RequestOf(c).Success? && IsCertificate(c)
    ensures CertList(c.file.value, c.guid).Success? && RequestOf(c).value.data == CertList(c.file.value, c.guid).value
  {
    hide Lower, CertList;
  }

  lemma {:induction false} ExpectedAt(t: Bytes16, cs: seq<Cert>)
    ensures |SignatureDb.Expected(t, cs)| == |cs|
    ensures forall i :: 0 <= i < |cs| ==> SignatureDb.Expected(t, cs)[i] == Signature(t, cs[i].owner, cs[i].data)
    decreases |cs|
  {
    if cs != [] { ExpectedAt(t, cs[1..]); }
  }
}
