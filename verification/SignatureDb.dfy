/** What firmware reads from an enrolled signature database (section 32.4.1 of UEFI 2.10): the
    partner of EfiSignatureList, EfiSignatureData and create_pk_x509_cert_list. */
module SignatureDb {
  import opened Outcomes
  import opened Bytes
  import opened Text
  import opened Guid
  import opened WellKnownGuids
  import opened Variables
  import opened StoreOps

  // ---- the GUID constants ----

  /** The vendor and type GUIDs of the reserved variables are accepted by str2guid. */
  lemma ConstantsAccepted()
    ensures Str2Guid(CERT_X509).Success? && Str2Guid(EFI_GLOBAL_VARIABLE).Success?
    ensures Str2Guid(IMAGE_SECURITY_DATABASE).Success?
  {
    hide GuidShape, VersionAndVariant, PackFields;
    X509Shape(); GlobalShape(); DatabaseShape();
    CanonicalAccepted(CERT_X509); CanonicalAccepted(EFI_GLOBAL_VARIABLE); CanonicalAccepted(IMAGE_SECURITY_DATABASE);
    assert CERT_X509[..36] == CERT_X509 && EFI_GLOBAL_VARIABLE[..36] == EFI_GLOBAL_VARIABLE;
    assert IMAGE_SECURITY_DATABASE[..36] == IMAGE_SECURITY_DATABASE;
  }

  // ---- reading a database ----

  datatype Signature = Signature(sigType: Blob, owner: Blob, data: Blob)

  /** The signatures of one list: its body is cut into pieces of the signature size. */
  function Signatures(sigType: Blob, body: Blob, size: nat): seq<Signature>
    requires size >= 16
    decreases |body|
  {
    if |body| < size then []
    else [Signature(sigType, body[..16], body[16..size])] + Signatures(sigType, body[size..], size)
  }

  /** All signatures of a database of concatenated lists, None if it is malformed. */
  function ReadDatabase(blob: Blob): Option<seq<Signature>>
    decreases |blob|
  {
    if blob == [] then Some([])
    else if |blob| < 28 then None
    else
      var listSize, headSize, sigSize := FromLe(blob[16..20]), FromLe(blob[20..24]), FromLe(blob[24..28]);
      if listSize < 28 + headSize || listSize > |blob| || sigSize < 16 || (listSize - 28 - headSize) % sigSize != 0
      then None
      else
        match ReadDatabase(blob[listSize..])
        case None => None
        case Some(rest) => Some(Signatures(blob[..16], blob[28 + headSize..listSize], sigSize) + rest)
  }

  lemma ListFields(t: Bytes16, owner: Bytes16, cert: Blob, rest: Blob)
    requires 28 + 16 + |cert| < WORD
    ensures var b := SignatureList(t, owner, cert) + rest;
      && |SignatureList(t, owner, cert)| == 44 + |cert|
      && b[..16] == t && FromLe(b[16..20]) == 44 + |cert| && FromLe(b[20..24]) == 0 && FromLe(b[24..28]) == 16 + |cert|
      && b[28..44 + |cert|] == owner + cert && b[44 + |cert|..] == rest
  {
    hide Le, FromLe;
    var b := SignatureList(t, owner, cert) + rest;
    Limits();
    LeInverse(44 + |cert|, 4); LeInverse(0, 4); LeInverse(16 + |cert|, 4);
    assert b[16..20] == Le(44 + |cert|, 4) && b[20..24] == Le(0, 4) && b[24..28] == Le(16 + |cert|, 4);
  }

  lemma OneSignature(t: Blob, owner: Bytes16, cert: Blob)
    ensures Signatures(t, owner + cert, 16 + |cert|) == [Signature(t, owner, cert)]
  {
    var body := owner + cert;
    assert body[..16] == owner && body[16..|body|] == cert && body[|body|..] == [];
    assert Signatures(t, [], |body|) == [];
  }

  lemma Whole(n: nat)
    requires n > 0
    ensures n % n == 0
  {
  }

  /** A list in front of a database adds its one certificate to what is read. */
  lemma ReadList(t: Bytes16, owner: Bytes16, cert: Blob, rest: Blob)
    requires 28 + 16 + |cert| < WORD
    ensures ReadDatabase(SignatureList(t, owner, cert) + rest)
         == match ReadDatabase(rest)
            case None => None
            case Some(more) => Some([Signature(t, owner, cert)] + more)
  {
    hide SignatureList, FromLe, Signatures;
    ListFields(t, owner, cert, rest);
    OneSignature(t, owner, cert);
    var n := 16 + |cert|;
    Whole(n);
    assert 44 + |cert| - 28 - 0 == n;
  }

  /** A certificate with the owner under which it was enrolled. */
  datatype Cert = Cert(owner: Bytes16, data: Blob)

  function Database(t: Bytes16, cs: seq<Cert>): Blob {
    if cs == [] then [] else SignatureList(t, cs[0].owner, cs[0].data) + Database(t, cs[1..])
  }

  function Expected(t: Bytes16, cs: seq<Cert>): seq<Signature> {
    if cs == [] then [] else [Signature(t, cs[0].owner, cs[0].data)] + Expected(t, cs[1..])
  }

  predicate Encodable(cs: seq<Cert>) { forall i :: 0 <= i < |cs| ==> 28 + 16 + |cs[i].data| < WORD }

  /** However many certificates are added and appended, the stored bytes read back as exactly those
      certificates with their owners, in order. */
  lemma {:induction false} DatabaseReads(t: Bytes16, cs: seq<Cert>)
    requires Encodable(cs)
    ensures ReadDatabase(Database(t, cs)) == Some(Expected(t, cs))
    decreases |cs|
  {
    hide ReadDatabase, SignatureList;
    if cs == [] {
      EmptyDatabase();
    } else {
      assert Encodable(cs[1..]);
      DatabaseReads(t, cs[1..]);
      ReadList(t, cs[0].owner, cs[0].data, Database(t, cs[1..]));
    }
  }

  lemma EmptyDatabase()
    ensures ReadDatabase([]) == Some([])
  {
  }

  lemma {:induction false} DatabaseAppend(t: Bytes16, cs: seq<Cert>, c: Cert)
    ensures Database(t, cs + [c]) == Database(t, cs) + SignatureList(t, c.owner, c.data)
    decreases |cs|
  {
    hide SignatureList;
    if cs == [] {
      assert [c][1..] == [] && cs + [c] == [c];
      assert SignatureList(t, c.owner, c.data) + [] == SignatureList(t, c.owner, c.data);
    } else {
      DatabaseAppend(t, cs[1..], c);
      assert (cs + [c])[1..] == cs[1..] + [c];
      assert SignatureList(t, cs[0].owner, cs[0].data) + (Database(t, cs[1..]) + SignatureList(t, c.owner, c.data))
          == SignatureList(t, cs[0].owner, cs[0].data) + Database(t, cs[1..]) + SignatureList(t, c.owner, c.data);
    }
  }

  /** Appending a certificate to a stored database (KEK or db in append mode) stores the database
      with the certificate added last. */
  lemma AppendedCertIsRead(v: Variable, cs: seq<Cert>, r: Request, owner: string, cert: Blob)
    requires CertList(cert, owner).Success? && r.data == CertList(cert, owner).value && r.append
    requires Str2Guid(CERT_X509).Success? && v.data == Database(Str2Guid(CERT_X509).value, cs) && Encodable(cs)
    ensures Str2Guid(owner).Success?
    ensures ReadDatabase(Updated(v, r).data)
         == Some(Expected(Str2Guid(CERT_X509).value, cs + [Cert(Str2Guid(owner).value, cert)]))
  {
    hide Str2Guid, ReadDatabase, Database, Expected, TimeBlob, SignatureList;
    var t, c := Str2Guid(CERT_X509).value, Cert(Str2Guid(owner).value, cert);
    DatabaseAppend(t, cs, c);
    assert Encodable(cs + [c]);
    DatabaseReads(t, cs + [c]);
  }

  // ---- what the requests carry ----

  /** A dbx request carries the bytes behind the authentication header and the header's own timestamp;
      the certificate requests carry the clock. */
  lemma RequestTimes(c: Command)
    requires RequestOf(c).Success? && !c.kind.Delete?
    ensures Lower(c.name) == "dbx" ==>
      TimeBlob(RequestOf(c).value.time) == c.file.value[..16]
    ensures Lower(c.name) == "dbx" && AuthSize(c.file.value) <= |c.file.value| ==>
      c.file.value == c.file.value[..AuthSize(c.file.value)] + RequestOf(c).value.data
    ensures Lower(c.name) in ["pk", "kek", "db"] ==>
      RequestOf(c).value.time == c.now && HoldsOne(RequestOf(c).value.data, c.file.value, c.guid)
    ensures Lower(c.name) !in ["pk", "kek", "db", "dbx"] ==>
      && RequestOf(c).value.data == c.file.value
      && RequestOf(c).value.time == if AttributesOf(c) / 0x20 % 2 == 1 then c.now else NO_TIME
  {
    hide Lower, CertList, AuthSize, ParseTime, TimeBlob, HoldsOne;
    var file := c.file.value;
    if Lower(c.name) == "dbx" {
      ParsedTimeInverse(file[..16]);
    } else if CertList(file, c.guid).Success? {
      CertReads(file, c.guid);
    }
  }

  /** The database holds one signature: the certificate under its owner. */
  predicate HoldsOne(blob: Blob, cert: Blob, owner: string) {
    var d := ReadDatabase(blob);
    d.Some? && |d.value| == 1 && d.value[0].data == cert
    && Str2Guid(owner).Success? && d.value[0].owner == Str2Guid(owner).value
  }

  lemma CertReads(cert: Blob, owner: string)
    requires CertList(cert, owner).Success?
    ensures HoldsOne(CertList(cert, owner).value, cert, owner)
  {
    hide Str2Guid, ReadDatabase, SignatureList;
    var t, o := Str2Guid(CERT_X509).value, Str2Guid(owner).value;
    ReadList(t, o, cert, []);
    EmptyDatabase();
    assert SignatureList(t, o, cert) + [] == SignatureList(t, o, cert);
  }
}
