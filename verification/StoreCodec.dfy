/** Reading and writing the variable region of a firmware image
    (FirmwareVolume, VariableStore.sync_to_vars_list, sync_to_file, find_var_info;
    section 3.2.1 of the UEFI PI Specification, Volume 3). */
module StoreCodec {
  import opened Sequences
  import opened Outcomes
  import opened Bytes
  import opened Text
  import opened Guid
  import opened WellKnownGuids
  import opened Variables

  const STORE_HEADER := 28
  const FV_HEADER := 56
  const FV_MAGIC: Blob := [0x5F, 0x46, 0x56, 0x48] // b'_FVH'

  // ---- reader ----

  /** What one turn of the reading loop finds at an offset. */
  datatype Turn = Stop | Raise(error: Error) | Record(v: Variable, next: nat)

  function TurnAt(raw: Blob, begin: nat, end: nat): (t: Turn)
    ensures t.Record? ==> begin < end && begin + HEADER_SIZE <= t.next && begin + HEADER_SIZE <= |raw|
  {
    if begin >= end then Stop
    else
      var sig := Slice(raw, begin, begin + 2);
      if |sig| != 2 then Raise(StructError)
      else if FromLe(sig) != START_ID then Stop
      else
        var header := Slice(raw, begin, begin + HEADER_SIZE);
        if |header| != HEADER_SIZE then Stop
        else
          var v := ParseHeader(header);
          var full := v.dataSize + v.nameSize + HEADER_SIZE;
          Record(WithBody(v, Slice(raw, begin, begin + full)), Align4(begin + full))
  }

  datatype Scan = Scan(vars: seq<Variable>, next: nat)

  /** sync_to_vars_list from offset begin: the ADDED variables and the offset where it stops. */
  function ReadVars(raw: Blob, begin: nat, end: nat): Result<Scan>
    decreases if begin < end then end - begin else 0
  {
    match TurnAt(raw, begin, end)
    case Stop => Success(Scan([], begin))
    case Raise(e) => Failure(e)
    case Record(v, next) =>
      if v.state != VAR_ADDED then ReadVars(raw, next, end)
      else if !Utf8Valid(v.nameBlob) then Failure(UnicodeError)
      else
        var rest :- ReadVars(raw, next, end);
        Success(Scan([v] + rest.vars, rest.next))
  }

  // ---- writer ----

  predicate AllPackable(vs: seq<Variable>) { forall v :: v in vs ==> Packable(v) }

  predicate AllWellFormed(vs: seq<Variable>) { AllPackable(vs) && forall v :: v in vs ==> WellFormed(v) }

  predicate AllFramed(vs: seq<Variable>) { AllPackable(vs) && forall v :: v in vs ==> Framed(v) }

  predicate AllDecode(vs: seq<Variable>) { forall v :: v in vs ==> Utf8Valid(v.nameBlob) }

  predicate AllSizesExact(vs: seq<Variable>) { forall v :: v in vs ==> SizesExact(v) }

  /** The record of one variable, padded with 0xFF to a multiple of four. */
  function Padded(v: Variable): (r: Blob)
    requires Packable(v)
    ensures |r| % 4 == 0
  {
    var e := Encoded(v);
    e + Fill(0xff, Align4(|e|) - |e|)
  }

  /** The blob that sync_to_file builds. */
  function EncodeAll(vs: seq<Variable>): (r: Blob)
    requires AllPackable(vs)
    ensures |r| % 4 == 0
  {
    hide Packable, Padded;
    if vs == [] then [] else Padded(vs[0]) + EncodeAll(vs[1..])
  }

  /** The padding: less than four bytes 0xFF behind the record. */
  lemma RecordPadding(v: Variable)
    requires Packable(v)
    ensures |Encoded(v)| <= |Padded(v)| < |Encoded(v)| + 4 && |Padded(v)| % 4 == 0
    ensures Padded(v)[..|Encoded(v)|] == Encoded(v)
    ensures forall i :: |Encoded(v)| <= i < |Padded(v)| ==> Padded(v)[i] == 0xff
  {
    hide Encoded;
  }

  lemma EncodeAllCons(vs: seq<Variable>)
    requires AllPackable(vs) && vs != []
    ensures Packable(vs[0]) && AllPackable(vs[1..]) && EncodeAll(vs) == Padded(vs[0]) + EncodeAll(vs[1..])
  {
    hide Packable, Padded;
  }

  lemma {:induction false} EncodeAllAppend(vs: seq<Variable>, v: Variable)
    requires AllPackable(vs) && Packable(v)
    ensures AllPackable(vs + [v]) && EncodeAll(vs + [v]) == EncodeAll(vs) + Padded(v)
  {
    hide Padded, Packable;
    if vs == [] {
      assert vs + [v] == [v] && [v][1..] == [];
    } else {
      EncodeAllAppend(vs[1..], v);
      assert (vs + [v])[1..] == vs[1..] + [v];
      assert AllPackable(vs + [v]);
    }
  }

  /** Where the store lies in an image whose NVRAM volume starts at offset 0. */
  datatype Layout = Layout(hdrLen: nat, fvSize: nat, storeSize: nat)

  /** The volume's bytes from the store header on: VariableStore.raw_data. */
  function Raw(img: Blob, lay: Layout): Blob {
    var fv := img[..Min(lay.fvSize, |img|)];
    if lay.hdrLen <= |fv| then fv[lay.hdrLen..] else []
  }

  function RegionStart(lay: Layout): nat { lay.hdrLen + STORE_HEADER }

  /** sync_to_file: the image with its variable region cleared and the records copied in. */
  function Write(img: Blob, lay: Layout, vs: seq<Variable>): Blob
    requires AllPackable(vs)
  {
    var start := RegionStart(lay);
    var size := if lay.storeSize >= STORE_HEADER then lay.storeSize - STORE_HEADER else 0;
    var cleared := SetSlice(img, start, lay.hdrLen + lay.storeSize, Fill(0xff, size));
    var blob := EncodeAll(vs);
    if |blob| > 0 then SetSlice(cleared, start, start + |blob|, blob) else cleared
  }

  /** The padded records fit in the region; sync_to_file does not check it. */
  predicate Fits(lay: Layout, vs: seq<Variable>)
    requires AllPackable(vs)
  {
    STORE_HEADER + |EncodeAll(vs)| <= lay.storeSize
  }

  /** The region lies inside the image and inside the volume, after the volume header. */
  predicate SoundLayout(img: Blob, lay: Layout) {
    lay.hdrLen >= STORE_HEADER && lay.hdrLen + lay.storeSize <= Min(lay.fvSize, |img|)
  }

  // ---- locating the store ----

  /** The outcomes of find_var_info before the records are read. */
  datatype Search = Found(lay: Layout) | Unsupported | Raises(error: Error) | Diverges

  /** FirmwareVolume(data).valid_header */
  predicate NvramHeader(data: Blob) {
    |data| >= FV_HEADER && data[40..44] == FV_MAGIC && Guid2Str(data[16..32]) == NVRAM_GUID
  }

  function Locate(img: Blob): Search {
    if img == [] then Raises(MissingAttribute)
    else if !NvramHeader(Slice(img, 0, 128)) then Diverges
    else
      var lay := Layout(FromLe(img[48..50]), FromLe(img[32..40]), 0);
      var header := Slice(Raw(img, lay), 0, STORE_HEADER);
      if |header| != STORE_HEADER then Raises(MissingAttribute)
      else if Guid2Str(header[0..16]) != TIME_BASED_GUID then Unsupported
      else Found(lay.(storeSize := FromLe(header[16..20])))
  }

  /** The search loop as a machine: the offset before turn n, or None once the loop has ended. */
  function SearchOffset(img: Blob, n: nat): Option<nat> {
    if n == 0 then Some(0)
    else
      match SearchOffset(img, n - 1)
      case None => None
      case Some(offset) =>
        if offset >= |img| || NvramHeader(Slice(img, offset, offset + 128)) then None else Some(offset)
  }

  /** The loop of find_var_info ends exactly on an empty image or one whose volume is at offset 0:
      the offset is never advanced. */
  lemma {:induction false} SearchEnds(img: Blob, n: nat)
    ensures Locate(img) == Diverges ==> SearchOffset(img, n) == Some(0)
    ensures Locate(img) != Diverges && n > 0 ==> SearchOffset(img, n) == None
  {
    hide Guid2Str;
    if n > 0 {
      SearchEnds(img, n - 1);
    }
  }

  // ---- reading back what was written ----

  /** The slices that the reader takes at the start of a record. */
  lemma SlicesOfRecord(raw: Blob, prefix: Blob, v: Variable, rest: Blob)
    requires Packable(v) && raw == prefix + Encoded(v) + rest
    ensures Slice(raw, |prefix|, |prefix| + 2) == Le(v.startId, 2)
    ensures Slice(raw, |prefix|, |prefix| + HEADER_SIZE) == Header(v)
    ensures Slice(raw, |prefix|, |prefix| + |Encoded(v)|) == Encoded(v)
  {
    var begin, e := |prefix|, Encoded(v);
    HeaderSlices(v);
    assert raw[begin..begin + |e|] == e;
    assert raw[begin..begin + HEADER_SIZE] == Header(v);
    assert raw[begin..begin + 2] == Header(v)[0..2];
  }

  /** The turn at the start of a padded record reads the variable and strides over the padding. */
  lemma TurnOnRecord(raw: Blob, prefix: Blob, v: Variable, rest: Blob, end: nat)
    requires Framed(v) && |prefix| % 4 == 0 && |prefix| < end
    requires raw == prefix + Padded(v) + rest
    ensures TurnAt(raw, |prefix|, end) == Record(v, |prefix| + |Padded(v)|)
  {
    hide Guid2Str, Le, FromLe, Header, ParseHeader, WithBody, Slice, Limit, Fill, Align4, Encoded;
    var e := Encoded(v);
    RecordInverse(v);
    HeaderInverse(v);
    var pad := Fill(0xff, Align4(|e|) - |e|);
    Regroup(prefix, e, pad, rest);
    SlicesOfRecord(raw, prefix, v, pad + rest);
    Limits();
    LeInverse(START_ID, 2);
    AlignedBegin(|prefix|, |e|);
  }

  /** Whether the loop can look past the last record without raising. */
  predicate Closed(tail: Blob, room: int) {
    room > 0 ==> |tail| >= 2
  }

  /** Past the last record the reader meets 0xFF, the end of the store, or too few bytes. */
  lemma ReadEnd(raw: Blob, prefix: Blob, tail: Blob, end: nat)
    requires raw == prefix + tail
    requires |prefix| < end && tail != [] ==> tail[0] == 0xff
    ensures TurnAt(raw, |prefix|, end) == if Closed(tail, end - |prefix|) then Stop else Raise(StructError)
  {
    hide Guid2Str, ParseHeader;
    if |tail| >= 2 && |prefix| < end {
      var sig := Slice(raw, |prefix|, |prefix| + 2);
      assert sig == tail[..2];
      assert FromLe(sig) % 256 == 0xff;
    }
  }

  /** Records written back to back and followed by 0xFF are read back unchanged and in order,
      and the reader stops where the writer stopped; a name that does not decode makes it raise. */
  lemma {:induction false} ReadBack(raw: Blob, prefix: Blob, vs: seq<Variable>, tail: Blob, end: nat)
    requires AllFramed(vs)
    requires |prefix| % 4 == 0 && raw == prefix + EncodeAll(vs) + tail
    requires |prefix| + |EncodeAll(vs)| <= end
    requires |prefix| + |EncodeAll(vs)| < end && tail != [] ==> tail[0] == 0xff
    ensures ReadVars(raw, |prefix|, end).Success? <==> AllDecode(vs) && Closed(tail, end - |prefix| - |EncodeAll(vs)|)
    ensures ReadVars(raw, |prefix|, end).Success? ==>
      ReadVars(raw, |prefix|, end) == Success(Scan(vs, |prefix| + |EncodeAll(vs)|))
    decreases |vs|
  {
    hide Padded, TurnAt, Packable, Framed, Slice, FromLe, Utf8Valid, AllDecode, AllFramed, ReadVars,
      AllPackable, EncodeAll;
    if vs == [] {
      NothingEncoded();
      assert raw == prefix + tail;
      ReadEnd(raw, prefix, tail, end);
      ReadsNoRecord(raw, |prefix|, end);
      NothingToDecode();
    } else {
      FirstFramed(vs);
      EncodeAllCons(vs);
      var v, later := vs[0], EncodeAll(vs[1..]);
      KeepsShape(v);
      NonemptyRecord(v);
      Regroup(prefix, Padded(v), later, tail);
      TurnOnRecord(raw, prefix, v, later + tail, end);
      ReadsRecord(raw, |prefix|, end);
      assert [v] + vs[1..] == vs;
      FirstDecodes(vs);
      ReadBack(raw, prefix + Padded(v), vs[1..], tail, end);
    }
  }

  /** The reader in terms of its first turn. */
  lemma ReadsRecord(raw: Blob, begin: nat, end: nat)
    requires TurnAt(raw, begin, end).Record? && TurnAt(raw, begin, end).v.state == VAR_ADDED
    ensures var t := TurnAt(raw, begin, end);
      ReadVars(raw, begin, end)
      == if !Utf8Valid(t.v.nameBlob) then Failure(UnicodeError)
         else match ReadVars(raw, t.next, end)
              case Failure(e) => Failure(e)
              case Success(rest) => Success(Scan([t.v] + rest.vars, rest.next))
  {
    hide TurnAt, Utf8Valid;
  }

  lemma ReadsNoRecord(raw: Blob, begin: nat, end: nat)
    requires !TurnAt(raw, begin, end).Record?
    ensures var t := TurnAt(raw, begin, end);
      ReadVars(raw, begin, end) == if t.Stop? then Success(Scan([], begin)) else Failure(t.error)
  {
    hide TurnAt;
  }

  lemma NothingEncoded()
    ensures AllPackable([]) && EncodeAll([]) == []
  {
  }

  lemma NothingToDecode()
    ensures AllDecode([])
  {
  }

  lemma Regroup(prefix: Blob, record: Blob, later: Blob, tail: Blob)
    ensures prefix + (record + later) + tail == prefix + record + (later + tail)
    ensures prefix + (record + later) + tail == (prefix + record) + later + tail
  {
  }

  lemma KeepsShape(v: Variable)
    ensures Framed(v) ==> v.state == VAR_ADDED
  {
  }

  lemma FirstFramed(vs: seq<Variable>)
    requires AllFramed(vs) && vs != []
    ensures Framed(vs[0]) && Packable(vs[0]) && AllFramed(vs[1..]) && AllPackable(vs[1..]) && AllPackable(vs)
  {
    hide Framed, Packable;
    assert vs[0] in vs;
  }

  lemma FirstDecodes(vs: seq<Variable>)
    requires vs != []
    ensures AllDecode(vs) <==> Utf8Valid(vs[0].nameBlob) && AllDecode(vs[1..])
  {
    hide Utf8Valid;
    assert forall v :: v in vs <==> v == vs[0] || v in vs[1..];
  }

  lemma NonemptyRecord(v: Variable)
    requires Packable(v)
    ensures |Padded(v)| > 0
  {
  }

  /** The written image, piece by piece. */
  lemma WriteShape(img: Blob, lay: Layout, vs: seq<Variable>)
    requires AllPackable(vs) && Fits(lay, vs) && lay.hdrLen + lay.storeSize <= |img|
    ensures Write(img, lay, vs)
         == img[..RegionStart(lay)] + EncodeAll(vs)
            + Fill(0xff, lay.storeSize - STORE_HEADER - |EncodeAll(vs)|) + img[lay.hdrLen + lay.storeSize..]
  {
    hide EncodeAll, Packable;
    var start, stop, blob := RegionStart(lay), lay.hdrLen + lay.storeSize, EncodeAll(vs);
    var size := lay.storeSize - STORE_HEADER;
    var cleared := SetSlice(img, start, stop, Fill(0xff, size));
    assert cleared == img[..start] + Fill(0xff, size) + img[stop..];
    assert cleared[..start] == img[..start];
    assert cleared[start + |blob|..] == Fill(0xff, size - |blob|) + img[stop..];
  }

  /** When the records fit, the writer keeps the image's length and every byte outside the region,
      puts the records at its start and leaves the rest of it 0xFF. */
  lemma WriterFrame(img: Blob, lay: Layout, vs: seq<Variable>)
    requires AllPackable(vs) && Fits(lay, vs) && lay.hdrLen + lay.storeSize <= |img|
    ensures |Write(img, lay, vs)| == |img|
    ensures forall i :: 0 <= i < |img| && !(RegionStart(lay) <= i < lay.hdrLen + lay.storeSize)
              ==> Write(img, lay, vs)[i] == img[i]
    ensures Write(img, lay, vs)[RegionStart(lay)..RegionStart(lay) + |EncodeAll(vs)|] == EncodeAll(vs)
    ensures forall i :: RegionStart(lay) + |EncodeAll(vs)| <= i < lay.hdrLen + lay.storeSize
              ==> Write(img, lay, vs)[i] == 0xff
  {
    hide Write, EncodeAll, Packable;
    WriteShape(img, lay, vs);
    var start, stop, blob := RegionStart(lay), lay.hdrLen + lay.storeSize, EncodeAll(vs);
    Pieces(img[..start], blob, Fill(0xff, stop - start - |blob|), img[stop..]);
  }

  lemma Pieces(a: Blob, b: Blob, c: Blob, d: Blob)
    ensures var s, m, n := a + b + c + d, |a| + |b|, |a| + |b| + |c|;
      && |s| == n + |d| && s[|a|..m] == b
      && (forall i :: 0 <= i < |a| ==> s[i] == a[i])
      && (forall i :: m <= i < n ==> s[i] == c[i - m])
      && (forall i :: n <= i < |s| ==> s[i] == d[i - n])
  {
  }

  /** Without the fitting condition, and for a store size of any kind, the length is kept exactly while the
      records end inside the image. */
  lemma WriterLength(img: Blob, lay: Layout, vs: seq<Variable>)
    requires AllPackable(vs) && lay.hdrLen + lay.storeSize <= |img|
    ensures |Write(img, lay, vs)| == |img| <==> EncodeAll(vs) == [] || RegionStart(lay) + |EncodeAll(vs)| <= |img|
  {
    hide EncodeAll, Packable;
    var start, stop := RegionStart(lay), lay.hdrLen + lay.storeSize;
    var size := if lay.storeSize >= STORE_HEADER then lay.storeSize - STORE_HEADER else 0;
    assert |SetSlice(img, start, stop, Fill(0xff, size))| == |img|;
  }

  /** Writing does not disturb what locates the store. */
  lemma WriteKeepsLayout(img: Blob, lay: Layout, vs: seq<Variable>)
    requires Locate(img) == Found(lay) && SoundLayout(img, lay)
    requires AllPackable(vs) && Fits(lay, vs)
    ensures Locate(Write(img, lay, vs)) == Found(lay)
    ensures SoundLayout(Write(img, lay, vs), lay)
  {
    hide Guid2Str, Write, Locate, Packable, EncodeAll;
    var out := Write(img, lay, vs);
    WriterFrame(img, lay, vs);
    assert out[..RegionStart(lay)] == img[..RegionStart(lay)];
    LocateFrame(img, out, lay);
  }

  /** find_var_info looks at the bytes in front of the variable region only. */
  lemma LocateFrame(img: Blob, out: Blob, lay: Layout)
    requires Locate(img) == Found(lay) && SoundLayout(img, lay) && lay.storeSize >= STORE_HEADER
    requires |out| == |img| && out[..RegionStart(lay)] == img[..RegionStart(lay)]
    ensures Locate(out) == Found(lay)
  {
    hide Guid2Str, Raw, FromLe, NvramHeader, Slice;
    var start := RegionStart(lay);
    LocatedHeader(img);
    SamePrefix(img, out, start, 0, FV_HEADER);
    SameHeader(img, out);
    StoreHeaderAt(img, lay);
    StoreHeaderAt(out, lay);
    SamePrefix(img, out, start, lay.hdrLen, start);
  }

  lemma LocatedHeader(img: Blob)
    requires Locate(img).Found?
    ensures |img| >= FV_HEADER && NvramHeader(Slice(img, 0, 128))
  {
    hide Guid2Str, Raw, FromLe;
  }

  /** The store header lies behind the volume header. */
  lemma StoreHeaderAt(img: Blob, lay: Layout)
    requires RegionStart(lay) <= Min(lay.fvSize, |img|)
    ensures Slice(Raw(img, lay.(storeSize := 0)), 0, STORE_HEADER) == img[lay.hdrLen..RegionStart(lay)]
  {
    var n := Min(lay.fvSize, |img|);
    TakeSlice(img, n, lay.hdrLen, RegionStart(lay));
    var fv := img[..n];
    assert fv[lay.hdrLen..][0..STORE_HEADER] == fv[lay.hdrLen..RegionStart(lay)];
  }

  lemma SameHeader(img: Blob, out: Blob)
    requires |img| == |out| && |img| >= FV_HEADER && img[0..FV_HEADER] == out[0..FV_HEADER]
    ensures NvramHeader(Slice(img, 0, 128)) ==> NvramHeader(Slice(out, 0, 128))
    ensures img[48..50] == out[48..50] && img[32..40] == out[32..40]
  {
    hide Guid2Str;
    assert img[..FV_HEADER] == out[..FV_HEADER];
    SamePrefix(img, out, FV_HEADER, 48, 50);
    SamePrefix(img, out, FV_HEADER, 32, 40);
    SamePrefix(img, out, FV_HEADER, 16, 32);
    SamePrefix(img, out, FV_HEADER, 40, 44);
    var n := Min(128, |img|);
    TakeSlice(img, n, 16, 32); TakeSlice(img, n, 40, 44);
    TakeSlice(out, n, 16, 32); TakeSlice(out, n, 40, 44);
  }

  /** A store of odd size filled up to its last byte at the very end of the volume is the one
      case in which the reader runs off the data. */
  predicate TailReadable(img: Blob, lay: Layout, vs: seq<Variable>)
    requires AllPackable(vs)
  {
    STORE_HEADER + |EncodeAll(vs)| + 1 == lay.storeSize ==> lay.hdrLen + lay.storeSize < Min(lay.fvSize, |img|)
  }

  lemma RawOfWritten(img: Blob, lay: Layout, vs: seq<Variable>) returns (header: Blob, tail: Blob)
    requires SoundLayout(img, lay) && AllPackable(vs) && Fits(lay, vs)
    ensures |header| == STORE_HEADER
    ensures Raw(Write(img, lay, vs), lay) == header + EncodeAll(vs) + tail
    ensures |tail| == Min(lay.fvSize, |img|) - RegionStart(lay) - |EncodeAll(vs)|
    ensures STORE_HEADER + |EncodeAll(vs)| < lay.storeSize ==> |tail| > 0 && tail[0] == 0xff
  {
    hide Write, EncodeAll, Packable;
    var out, blob := Write(img, lay, vs), EncodeAll(vs);
    WriterFrame(img, lay, vs);
    var start, n := RegionStart(lay), Min(lay.fvSize, |img|);
    var fv := out[..n];
    header, tail := fv[lay.hdrLen..start], fv[start + |blob|..n];
    TakeSlice(out, n, start, start + |blob|);
    JoinSlices(fv, lay.hdrLen, start + |blob|, n);
    JoinSlices(fv, lay.hdrLen, start, start + |blob|);
    assert fv[lay.hdrLen..] == fv[lay.hdrLen..n];
  }

  /** Store round trip: re-reading a written list gives the same variables in the same order if and
      only if every name decodes and the reader can look past the last record. */
  lemma StoreRoundTrip(img: Blob, lay: Layout, vs: seq<Variable>)
    requires SoundLayout(img, lay) && AllFramed(vs) && Fits(lay, vs)
    ensures var r := ReadVars(Raw(Write(img, lay, vs), lay), STORE_HEADER, lay.storeSize);
      && (r.Success? <==> AllDecode(vs) && TailReadable(img, lay, vs))
      && (r.Success? ==> r == Success(Scan(vs, STORE_HEADER + |EncodeAll(vs)|)))
  {
    hide Write, Raw, ReadVars, EncodeAll, Framed, Packable, AllDecode;
    var header, tail := RawOfWritten(img, lay, vs);
    ReadBack(Raw(Write(img, lay, vs), lay), header, vs, tail, lay.storeSize);
  }

  lemma WellFormedParts(vs: seq<Variable>)
    ensures AllWellFormed(vs) <==> AllFramed(vs) && AllDecode(vs)
  {
    hide Framed, Packable, Utf8Valid;
    if AllFramed(vs) && AllDecode(vs) {
      forall v | v in vs ensures WellFormed(v) {}
    }
  }

  // ---- the headers that locate the store ----

  /** EFI_FIRMWARE_VOLUME_HEADER up to its block map. */
  datatype VolumeHeader = VolumeHeader(
    zeros: Bytes16, guid: Bytes16, size: U64, attributes: U32, hdrLen: U16, checksum: U16, extOffset: U16,
    rsvd: Byte, revision: Byte)

  function EncodeVolume(v: VolumeHeader): (b: Blob)
    ensures |b| == FV_HEADER
  {
    v.zeros + v.guid + Le(v.size, 8) + FV_MAGIC + Le(v.attributes, 4) + Le(v.hdrLen, 2) + Le(v.checksum, 2)
    + Le(v.extOffset, 2) + [v.rsvd] + [v.revision]
  }

  /** VARIABLE_STORE_HEADER */
  datatype StoreHeader = StoreHeader(signature: Bytes16, size: U32, format: Byte, state: Byte, rsvd: U16, rsvd1: U32)

  function EncodeStore(s: StoreHeader): (b: Blob)
    ensures |b| == STORE_HEADER
  {
    s.signature + Le(s.size, 4) + [s.format] + [s.state] + Le(s.rsvd, 2) + Le(s.rsvd1, 4)
  }

  lemma VolumeFields(v: VolumeHeader)
    ensures var b := EncodeVolume(v);
      b[16..32] == v.guid && b[32..40] == Le(v.size, 8) && b[40..44] == FV_MAGIC && b[48..50] == Le(v.hdrLen, 2)
  {
    hide Le;
  }

  lemma StoreFields(s: StoreHeader)
    ensures var b := EncodeStore(s); b[0..16] == s.signature && b[16..20] == Le(s.size, 4)
  {
    hide Le;
  }

  /** find_var_info on an image laid out as the specifications say, a volume header with its block map and then
      the store header inside the volume: the search goes on for ever unless the volume is the NVRAM volume,
      and the store is found, where the headers say, exactly if it is a time-based authenticated one. */
  lemma LocateInverse(v: VolumeHeader, blocks: Blob, s: StoreHeader, rest: Blob)
    requires v.hdrLen == FV_HEADER + |blocks| && v.hdrLen + STORE_HEADER <= v.size
    ensures Locate(EncodeVolume(v) + blocks + EncodeStore(s) + rest)
         == if Guid2Str(v.guid) != "fff12b8d-7696-4c8b-a985-2747075b4f50" then Diverges
            else if Guid2Str(s.signature) != "aaf32c78-947b-439a-a180-2e144ec37792" then Unsupported
            else Found(Layout(v.hdrLen, v.size, s.size))
  {
    hide Guid2Str, Le, FromLe, EncodeVolume, EncodeStore;
    var head, store := EncodeVolume(v), EncodeStore(s);
    var img := head + blocks + store + rest;
    VolumeFields(v);
    StoreFields(s);
    Limits();
    LeInverse(v.hdrLen, 2); LeInverse(v.size, 8); LeInverse(s.size, 4);
    assert img[..FV_HEADER] == head;
    var cut := Slice(img, 0, 128);
    assert cut[16..32] == head[16..32] && cut[40..44] == head[40..44];
    assert img[48..50] == head[48..50] && img[32..40] == head[32..40];
    var lay := Layout(v.hdrLen, v.size, 0);
    assert img[v.hdrLen..v.hdrLen + STORE_HEADER] == store;
    assert Slice(Raw(img, lay), 0, STORE_HEADER) == store;
  }

  /** The search ends exactly on an empty image or one whose first 56 bytes have the signature "_FVH" at 40 and
      the NVRAM GUID at 16. */
  lemma VolumeAccepted(img: Blob)
    ensures Locate(img) != Diverges
       <==> img == [] || (|img| >= 56 && img[40..44] == [0x5f, 0x46, 0x56, 0x48]
                          && Guid2Str(img[16..32]) == "fff12b8d-7696-4c8b-a985-2747075b4f50")
  {
    hide Guid2Str, FromLe, Raw;
    if |img| >= 56 {
      var n := Min(128, |img|);
      TakeSlice(img, n, 16, 32);
      TakeSlice(img, n, 40, 44);
    }
  }
}
