/** What reading an arbitrary image yields, and what one read-then-write pass does to it. */
module NormalForm {
  import opened Sequences
  import opened Outcomes
  import opened Bytes
  import opened Text
  import opened Guid
  import opened Variables
  import opened StoreCodec

  /** A record as the reader returns it: name and data have the announced sizes or were cut short by the end
      of the data. */
  predicate ReadShape(v: Variable) {
    v.startId == START_ID && v.state == VAR_ADDED && Packable(v)
    && Utf8Valid(v.nameBlob) && v.guidStr == Guid2Str(v.vendorGuid) && CutShape(v)
  }

  predicate AllReadShape(vs: seq<Variable>) { forall v :: v in vs ==> ReadShape(v) }

  predicate CutShape(v: Variable) {
    |v.nameBlob| <= v.nameSize && |v.data| <= v.dataSize && (|v.nameBlob| < v.nameSize ==> v.data == [])
  }

  /** The bytes announced by the header of a record. */
  function Announced(v: Variable): int { HEADER_SIZE + v.nameSize + v.dataSize }

  /** The bytes it has. */
  function Actual(v: Variable): nat { HEADER_SIZE + |v.nameBlob| + |v.data| }

  /** A body cut from the data at begin has the announced sizes exactly when it ends inside. */
  lemma BodySizes(v: Variable, raw: Blob, begin: nat)
    requires v.nameSize >= 0 && v.dataSize >= 0 && begin + HEADER_SIZE <= |raw|
    ensures var w := WithBody(v, Slice(raw, begin, begin + Announced(v)));
      && CutShape(w) && Actual(w) == Min(Announced(v), |raw| - begin) && w.state == v.state
      && (SizesExact(w) <==> begin + Announced(v) <= |raw|)
  {
    var body := Slice(raw, begin, begin + Announced(v));
    assert |body| == Min(Announced(v), |raw| - begin);
  }

  /** The sizes in the header of the record at begin are those of its name and data exactly
      when the record ends inside the data. */
  lemma TurnShape(raw: Blob, begin: nat, end: nat)
    requires TurnAt(raw, begin, end).Record?
    ensures var t := TurnAt(raw, begin, end);
      t.v.startId == START_ID && Packable(t.v) && t.v.guidStr == Guid2Str(t.v.vendorGuid)
      && t.next == Align4(begin + Announced(t.v))
      && CutShape(t.v) && Actual(t.v) == Min(Announced(t.v), |raw| - begin)
      && (SizesExact(t.v) <==> begin + Announced(t.v) <= |raw|)
  {
    hide Guid2Str, FromLe, SizesExact, Header, CutShape, Slice;
    var h := Slice(raw, begin, begin + HEADER_SIZE);
    ParsedHeaderInverse(h);
    SliceStart(raw, begin, 2, HEADER_SIZE);
    BodySizes(ParseHeader(h), raw, begin);
  }

  /** All ADDED records end inside the data. */
  predicate InBounds(raw: Blob, begin: nat, end: nat)
    decreases if begin < end then end - begin else 0
  {
    match TurnAt(raw, begin, end)
    case Record(v, next) =>
      (v.state == VAR_ADDED ==> begin + Announced(v) <= |raw|) && InBounds(raw, next, end)
    case _ => true
  }

  /** Every variable read has the shape the writer needs, and all sizes are exact if and only if
      no ADDED record runs past the data. */
  lemma {:induction false} ReadGivesShape(raw: Blob, begin: nat, end: nat)
    requires ReadVars(raw, begin, end).Success?
    ensures AllReadShape(ReadVars(raw, begin, end).value.vars)
    ensures AllSizesExact(ReadVars(raw, begin, end).value.vars) <==> InBounds(raw, begin, end)
    decreases if begin < end then end - begin else 0
  {
    hide TurnAt, Utf8Valid, Guid2Str, Packable, SizesExact, Announced, CutShape, Actual;
    match TurnAt(raw, begin, end)
    case Record(v, next) =>
      TurnGrows(raw, begin, end);
      ReadGivesShape(raw, next, end);
      TurnShape(raw, begin, end);
      var rest := ReadVars(raw, next, end).value.vars;
      if v.state == VAR_ADDED {
        var vars := ReadVars(raw, begin, end).value.vars;
        assert vars == [v] + rest;
        assert forall x :: x in vars <==> x == v || x in rest;
      }
    case _ =>
  }

  lemma TurnGrows(raw: Blob, begin: nat, end: nat)
    ensures TurnAt(raw, begin, end).Record? ==> begin < end && begin < TurnAt(raw, begin, end).next
  {
  }

  /** In particular a list read from in-bounds records can be written back. */
  lemma ReadIsWellFormed(raw: Blob, begin: nat, end: nat)
    requires ReadVars(raw, begin, end).Success? && InBounds(raw, begin, end)
    ensures AllWellFormed(ReadVars(raw, begin, end).value.vars)
  {
    ReadGivesShape(raw, begin, end);
  }

  /** All records met by the reading loop, whatever their state. */
  function AllRecords(raw: Blob, begin: nat, end: nat): seq<Variable>
    decreases if begin < end then end - begin else 0
  {
    match TurnAt(raw, begin, end)
    case Record(v, next) => [v] + AllRecords(raw, next, end)
    case _ => []
  }

  /** The ADDED records of a list, in order. */
  function Added(vs: seq<Variable>): seq<Variable> {
    if vs == [] then []
    else (if vs[0].state == VAR_ADDED then [vs[0]] else []) + Added(vs[1..])
  }

  /** Reading drops exactly the records whose state is not ADDED and keeps the order of the rest. */
  lemma {:induction false} ReadsAdded(raw: Blob, begin: nat, end: nat)
    requires ReadVars(raw, begin, end).Success?
    ensures ReadVars(raw, begin, end).value.vars == Added(AllRecords(raw, begin, end))
    decreases if begin < end then end - begin else 0
  {
    hide TurnAt, Utf8Valid;
    match TurnAt(raw, begin, end)
    case Record(v, next) =>
      TurnGrows(raw, begin, end);
      ReadsAdded(raw, next, end);
      assert AllRecords(raw, begin, end)[1..] == AllRecords(raw, next, end);
    case _ =>
  }

  /** The re-encoded list is no longer than the bytes it was read from. */
  lemma {:induction false} ReadCompacts(raw: Blob, begin: nat, end: nat)
    requires begin % 4 == 0 && ReadVars(raw, begin, end).Success? && InBounds(raw, begin, end)
    ensures AllWellFormed(ReadVars(raw, begin, end).value.vars)
    ensures begin + |EncodeAll(ReadVars(raw, begin, end).value.vars)| <= ReadVars(raw, begin, end).value.next
    decreases if begin < end then end - begin else 0
  {
    hide TurnAt, Utf8Valid, Guid2Str, Packable, WellFormed, Padded, SizesExact, Announced, CutShape, Actual, Align4;
    ReadIsWellFormed(raw, begin, end);
    match TurnAt(raw, begin, end)
    case Record(v, next) =>
      TurnGrows(raw, begin, end);
      TurnShape(raw, begin, end);
      ReadCompacts(raw, next, end);
      if v.state == VAR_ADDED {
        var vars := ReadVars(raw, begin, end).value.vars;
        assert vars[0] == v && vars[1..] == ReadVars(raw, next, end).value.vars;
        WellFormedSizes(v);
        PaddedLength(v);
        AlignedBegin(begin, Announced(v));
      }
    case _ =>
  }

  /** A reading that succeeds stops at an aligned offset, at the end of the store or where two
      more bytes can be looked at. */
  lemma {:induction false} ReadStops(raw: Blob, begin: nat, end: nat)
    requires begin % 4 == 0 && ReadVars(raw, begin, end).Success?
    ensures var next := ReadVars(raw, begin, end).value.next;
      next % 4 == 0 && (next < end ==> next + 2 <= |raw|)
    decreases if begin < end then end - begin else 0
  {
    hide ParseHeader, Guid2Str, Utf8Valid, WithBody, FromLe;
    match TurnAt(raw, begin, end)
    case Record(v, next) => ReadStops(raw, next, end);
    case _ =>
  }

  lemma RawLength(img: Blob, lay: Layout)
    requires SoundLayout(img, lay)
    ensures |Raw(img, lay)| == Min(lay.fvSize, |img|) - lay.hdrLen
  {
  }

  lemma WellFormedSizes(v: Variable)
    requires WellFormed(v)
    ensures Packable(v) && SizesExact(v)
  {
  }

  /** With exact sizes a record occupies the bytes its header announces, rounded up to four:
      the stride of the reader. */
  lemma PaddedLength(v: Variable)
    requires Packable(v) && SizesExact(v)
    ensures |Padded(v)| == Align4(Announced(v))
  {
  }

  /** The state of an image whose variables are vs and can be rewritten. */
  predicate ReadsAs(img: Blob, lay: Layout, vs: seq<Variable>) {
    Locate(img) == Found(lay) && SoundLayout(img, lay) && AllWellFormed(vs)
    && var r := ReadVars(Raw(img, lay), STORE_HEADER, lay.storeSize);
       r.Success? && r.value.vars == vs
  }

  /** One pass over an image: the result still reads as the same variables in the same place, if and only if
      the reader can look past the last one, and writing them again changes no byte. */
  lemma PassIsNormalForm(img: Blob, lay: Layout, vs: seq<Variable>)
    requires Locate(img) == Found(lay) && SoundLayout(img, lay)
    requires AllWellFormed(vs) && Fits(lay, vs)
    ensures ReadsAs(Write(img, lay, vs), lay, vs) <==> TailReadable(img, lay, vs)
    ensures Write(Write(img, lay, vs), lay, vs) == Write(img, lay, vs)
  {
    hide Write, Raw, Locate, ReadVars, EncodeAll, WellFormed, Framed, Packable, AllDecode;
    WellFormedParts(vs);
    StoreRoundTrip(img, lay, vs);
    WriteKeepsLayout(img, lay, vs);
    WriteTwice(img, lay, vs);
  }

  // ---- the exact round trip ----

  /** Re-reading the written list gives the list. */
  predicate ReadsBack(img: Blob, lay: Layout, vs: seq<Variable>)
    requires AllPackable(vs)
  {
    var r := ReadVars(Raw(Write(img, lay, vs), lay), STORE_HEADER, lay.storeSize);
    r.Success? && r.value.vars == vs
  }

  /** A record whose body was cut short. */
  predicate Cut(v: Variable) { ReadShape(v) && !SizesExact(v) }

  /** All records are well-formed but the last, which is cut and needs no padding. */
  predicate EndsCut(vs: seq<Variable>) {
    vs != [] && var n := |vs| - 1; AllWellFormed(vs[..n]) && Cut(vs[n]) && Actual(vs[n]) % 4 == 0
  }

  lemma ShapedIsWellFormed(v: Variable)
    requires ReadShape(v)
    ensures WellFormed(v) <==> SizesExact(v)
    ensures Actual(v) <= Announced(v) && (SizesExact(v) <==> Actual(v) == Announced(v))
  {
    hide Utf8Valid, Guid2Str, Packable;
  }

  lemma WellFormedIsShaped(v: Variable)
    requires WellFormed(v)
    ensures ReadShape(v)
  {
    hide Utf8Valid, Guid2Str, Packable;
  }

  lemma PaddedActual(v: Variable)
    requires Packable(v)
    ensures |Encoded(v)| == Actual(v) && |Padded(v)| == Align4(Actual(v))
    ensures Actual(v) % 4 == 0 ==> Padded(v) == Encoded(v)
  {
    hide Header;
    assert Encoded(v) + [] == Encoded(v);
  }

  /** A record read from exactly its own bytes, cut or not, is the record. */
  lemma ShapedInverse(v: Variable)
    requires ReadShape(v)
    ensures WithBody(ParseHeader(Header(v)), Encoded(v)) == v
  {
    hide Header, ParseHeader, Guid2Str, Utf8Valid, Packable, Encoded;
    HeaderInverse(v);
    EncodedParts(v);
  }

  lemma EncodedParts(v: Variable)
    requires Packable(v)
    ensures var e, n := Encoded(v), HEADER_SIZE + |v.nameBlob|;
      |e| == n + |v.data| && e[HEADER_SIZE..n] == v.nameBlob && e[n..] == v.data
  {
    hide Header, Packable;
  }

  /** The turn at the start of any packed record. */
  lemma TurnOnShaped(raw: Blob, prefix: Blob, v: Variable, rest: Blob, end: nat)
    requires ReadShape(v) && |prefix| < end && raw == prefix + Padded(v) + rest
    ensures var t := TurnAt(raw, |prefix|, end);
      && t.Record? && t.next == Align4(|prefix| + Announced(v)) && t.v.state == VAR_ADDED
      && Actual(t.v) == Min(Announced(v), |raw| - |prefix|)
      && (|raw| == |prefix| + Actual(v) ==> t.v == v)
  {
    hide Guid2Str, Le, FromLe, Header, ParseHeader, WithBody, Slice, Fill, Utf8Valid, Packable, Limit;
    var e, b := Encoded(v), |prefix|;
    PaddedActual(v);
    var pad := Fill(0xff, Align4(|e|) - |e|);
    assert raw == prefix + e + (pad + rest);
    SlicesOfRecord(raw, prefix, v, pad + rest);
    HeaderInverse(v);
    Limits();
    LeInverse(START_ID, 2);
    var w := ParseHeader(Header(v));
    BodySizes(w, raw, b);
    if |raw| == b + Actual(v) {
      ShapedInverse(v);
      SliceToEnd(raw, b, Announced(v), Actual(v));
    }
  }

  lemma SliceToEnd(s: Blob, begin: nat, m: nat, n: nat)
    requires |s| == begin + n && n <= m
    ensures Slice(s, begin, begin + m) == Slice(s, begin, begin + n)
  {
  }

  lemma FirstWellFormed(vs: seq<Variable>)
    requires vs != []
    ensures AllWellFormed(vs) <==> WellFormed(vs[0]) && AllWellFormed(vs[1..])
    ensures |vs| > 1 ==> (EndsCut(vs) <==> WellFormed(vs[0]) && EndsCut(vs[1..]))
    ensures |vs| == 1 ==> (EndsCut(vs) <==> Cut(vs[0]) && Actual(vs[0]) % 4 == 0)
  {
    hide WellFormed, Packable, Cut, Actual;
    WellFormedCons(vs);
    if |vs| > 1 {
      var front := vs[..|vs| - 1];
      WellFormedCons(front);
      assert front[1..] == vs[1..][..|vs| - 2];
    }
  }

  lemma WellFormedCons(vs: seq<Variable>)
    requires vs != []
    ensures AllWellFormed(vs) <==> WellFormed(vs[0]) && AllWellFormed(vs[1..])
  {
    hide Framed, Utf8Valid;
    assert forall v :: v in vs <==> v == vs[0] || v in vs[1..];
    assert forall v :: WellFormed(v) ==> Packable(v) by { FramedPackable(); }
  }

  lemma FramedPackable()
    ensures forall v :: Framed(v) ==> Packable(v)
  {
  }

  /** Reading records written back to back gives exactly them if and only if they are all well-formed and the
      reader can look past them, or the data ends with the last of them and that is all it lacks. */
  lemma {:induction false} ReadExact(raw: Blob, prefix: Blob, vs: seq<Variable>, tail: Blob, end: nat)
    requires AllPackable(vs) && AllReadShape(vs)
    requires |prefix| % 4 == 0 && raw == prefix + EncodeAll(vs) + tail
    requires |prefix| + |EncodeAll(vs)| <= end <= |raw|
    requires |prefix| + |EncodeAll(vs)| < end ==> tail[0] == 0xff
    ensures var r := ReadVars(raw, |prefix|, end);
      r.Success? && r.value.vars == vs
      <==> (AllWellFormed(vs) && Closed(tail, end - |prefix| - |EncodeAll(vs)|)) || (EndsCut(vs) && tail == [])
    decreases |vs|
  {
    hide Padded, TurnAt, Packable, Framed, WellFormed, AllReadShape, ReadShape, Utf8Valid, Actual, Announced,
      SizesExact, EndsCut, AllWellFormed, AllFramed, AllDecode, ReadVars, AllPackable, EncodeAll;
    if AllWellFormed(vs) {
      WellFormedParts(vs);
      ReadBack(raw, prefix, vs, tail, end);
      NotCut(vs);
    } else {
      NothingIsWellFormed();
      EncodeAllCons(vs);
      var v, later := vs[0], EncodeAll(vs[1..]);
      FirstShaped(vs);
      NonemptyRecord(v);
      ShapedIsWellFormed(v);
      FirstWellFormed(vs);
      Regroup(prefix, Padded(v), later, tail);
      if SizesExact(v) {
        FramedOf(v);
        TurnOnRecord(raw, prefix, v, later + tail, end);
        ReadsRecord(raw, |prefix|, end);
        assert [v] + vs[1..] == vs;
        ReadExact(raw, prefix + Padded(v), vs[1..], tail, end);
      } else {
        ReadCutRecord(raw, prefix, vs, tail, end);
      }
    }
  }

  lemma NothingIsWellFormed()
    ensures AllWellFormed([])
  {
  }

  lemma FirstShaped(vs: seq<Variable>)
    requires AllReadShape(vs) && vs != []
    ensures ReadShape(vs[0]) && AllReadShape(vs[1..])
  {
    hide ReadShape;
    assert vs[0] in vs && forall x :: x in vs[1..] ==> x in vs;
  }

  lemma FramedOf(v: Variable)
    requires WellFormed(v)
    ensures Framed(v) && Packable(v) && Utf8Valid(v.nameBlob) && v.state == VAR_ADDED
  {
  }

  lemma NotCut(vs: seq<Variable>)
    requires AllWellFormed(vs)
    ensures !EndsCut(vs)
  {
    hide Utf8Valid, Guid2Str, Actual;
    if vs != [] { assert vs[|vs| - 1] in vs; }
  }

  /** The turn at a record that its header announces longer than it is: it is read unchanged exactly when the
      data ends with it, and then nothing follows. */
  lemma CutTurn(raw: Blob, prefix: Blob, v: Variable, rest: Blob, end: nat)
    requires Cut(v) && |prefix| < end <= |raw| && raw == prefix + Padded(v) + rest
    ensures var t := TurnAt(raw, |prefix|, end);
      && t.Record? && t.v.state == VAR_ADDED && Utf8Valid(v.nameBlob)
      && (t.v == v <==> Actual(v) % 4 == 0 && rest == [])
      && (t.v == v ==> t.next >= end)
  {
    hide Padded, TurnAt, Packable, ReadShape, Utf8Valid, Actual, Announced, SizesExact;
    ShapedIsWellFormed(v);
    ShapeDecodes(v);
    PaddedActual(v);
    TurnOnShaped(raw, prefix, v, rest, end);
  }

  lemma ReadCutRecord(raw: Blob, prefix: Blob, vs: seq<Variable>, tail: Blob, end: nat)
    requires AllPackable(vs) && vs != [] && Cut(vs[0])
    requires raw == prefix + EncodeAll(vs) + tail && |prefix| < end <= |raw|
    ensures var r := ReadVars(raw, |prefix|, end);
      r.Success? && r.value.vars == vs <==> |vs| == 1 && Actual(vs[0]) % 4 == 0 && tail == []
  {
    hide Padded, TurnAt, Packable, Cut, Utf8Valid, Actual;
    var v, later := vs[0], EncodeAll(vs[1..]);
    EncodedNonempty(vs[1..]);
    Regroup(prefix, Padded(v), later, tail);
    CutTurn(raw, prefix, v, later + tail, end);
    var t := TurnAt(raw, |prefix|, end);
    if t.v == v { ReadsNothing(raw, t.next, end); }
  }

  lemma EncodedNonempty(vs: seq<Variable>)
    requires AllPackable(vs)
    ensures EncodeAll(vs) == [] <==> vs == []
  {
    hide Padded, Packable;
    if vs != [] { NonemptyRecord(vs[0]); }
  }

  lemma ShapeDecodes(v: Variable)
    requires ReadShape(v)
    ensures Utf8Valid(v.nameBlob) && Packable(v)
  {
  }

  lemma ReadsNothing(raw: Blob, begin: nat, end: nat)
    requires begin >= end
    ensures ReadVars(raw, begin, end) == Success(Scan([], begin))
  {
  }

  /** Store round trip for every list that can be packed and fits: re-reading gives the list if and only if
      all its variables are well-formed and the reader can look past the last record, or the last one is
      announced longer than it is and ends with the volume. */
  lemma RoundTripExact(img: Blob, lay: Layout, vs: seq<Variable>)
    requires SoundLayout(img, lay) && AllPackable(vs) && Fits(lay, vs)
    ensures ReadsBack(img, lay, vs)
       <==> (AllWellFormed(vs) && TailReadable(img, lay, vs))
            || (EndsCut(vs) && STORE_HEADER + |EncodeAll(vs)| == |Raw(img, lay)|)
  {
    hide Write, Raw, ReadVars, EncodeAll, AllWellFormed, Packable, AllReadShape, EndsCut, SoundLayout, Fits,
      TailReadable;
    if AllReadShape(vs) {
      RoundTripShaped(img, lay, vs);
    } else if ReadsBack(img, lay, vs) {
      ReadGivesShape(Raw(Write(img, lay, vs), lay), STORE_HEADER, lay.storeSize);
    } else if AllWellFormed(vs) || EndsCut(vs) {
      AllShaped(vs);
    }
  }

  lemma RoundTripShaped(img: Blob, lay: Layout, vs: seq<Variable>)
    requires SoundLayout(img, lay) && AllPackable(vs) && Fits(lay, vs) && AllReadShape(vs)
    ensures ReadsBack(img, lay, vs)
       <==> (AllWellFormed(vs) && TailReadable(img, lay, vs))
            || (EndsCut(vs) && STORE_HEADER + |EncodeAll(vs)| == |Raw(img, lay)|)
  {
    hide Write, Raw, ReadVars, EncodeAll, AllWellFormed, Packable, AllReadShape, EndsCut, SoundLayout, Fits, Closed,
      TailReadable, RegionStart;
    var header, tail := RawOfWritten(img, lay, vs);
    TailCloses(img, lay, vs, tail);
    ReadExact(Raw(Write(img, lay, vs), lay), header, vs, tail, lay.storeSize);
  }

  /** What is left behind the records, in terms of the image. */
  lemma TailCloses(img: Blob, lay: Layout, vs: seq<Variable>, tail: Blob)
    requires SoundLayout(img, lay) && AllPackable(vs) && Fits(lay, vs)
    requires |tail| == Min(lay.fvSize, |img|) - RegionStart(lay) - |EncodeAll(vs)|
    ensures Closed(tail, lay.storeSize - STORE_HEADER - |EncodeAll(vs)|) <==> TailReadable(img, lay, vs)
    ensures tail == [] <==> STORE_HEADER + |EncodeAll(vs)| == |Raw(img, lay)|
    ensures STORE_HEADER + |EncodeAll(vs)| <= lay.storeSize <= STORE_HEADER + |EncodeAll(vs)| + |tail|
  {
    hide EncodeAll, Packable, Raw;
    RawLength(img, lay);
  }

  lemma AllShaped(vs: seq<Variable>)
    requires AllWellFormed(vs) || EndsCut(vs)
    ensures AllReadShape(vs)
  {
    hide WellFormed, Packable, ReadShape, Actual;
    forall v | v in vs ensures ReadShape(v) {
      if WellFormed(v) {
        WellFormedIsShaped(v);
      } else {
        assert v in vs[..|vs| - 1] || v == vs[|vs| - 1];
      }
    }
  }

  // ---- the normal form of an image ----

  /** A list read with a record that runs past the data ends with that record. */
  lemma {:induction false} OutOfBoundsEnds(raw: Blob, begin: nat, end: nat)
    requires begin % 4 == 0 && end <= |raw| && ReadVars(raw, begin, end).Success? && !InBounds(raw, begin, end)
    ensures var vs := ReadVars(raw, begin, end).value.vars;
      vs != [] && AllWellFormed(vs[..|vs| - 1]) && Cut(vs[|vs| - 1]) && (|raw| - Actual(vs[|vs| - 1])) % 4 == 0
    decreases if begin < end then end - begin else 0
  {
    hide TurnAt, Utf8Valid, Guid2Str, Packable, SizesExact, Announced, CutShape, Actual, WellFormed;
    var t := TurnAt(raw, begin, end);
    TurnGrows(raw, begin, end);
    TurnShape(raw, begin, end);
    ReadGivesShape(raw, begin, end);
    var vs := ReadVars(raw, begin, end).value.vars;
    if t.v.state == VAR_ADDED && begin + Announced(t.v) > |raw| {
      ReadsNothing(raw, t.next, end);
      assert vs == [t.v] && t.v in vs;
      assert vs[..0] == [];
    } else {
      OutOfBoundsEnds(raw, t.next, end);
      var rest := ReadVars(raw, t.next, end).value.vars;
      if t.v.state == VAR_ADDED {
        assert vs == [t.v] + rest && t.v in vs;
        ShapedIsWellFormed(t.v);
        Cons(t.v, rest);
        Cons(t.v, rest[..|rest| - 1]);
        WellFormedCons(vs[..|vs| - 1]);
      }
    }
  }

  /** Normal form, from the bytes alone: one read-then-write pass keeps exactly the ADDED records in order.
      They are well-formed if and only if none runs past the data. When they fit, a second write is the
      identity, and the image reads as them if and only if the reader can look past the last one or, with a
      last record cut by the end of the volume, nothing in front of it was dropped. Records that end inside
      the store fit and can be looked past. */
  lemma NormalFormOfImage(img: Blob, lay: Layout, scan: Scan)
    requires Locate(img) == Found(lay) && SoundLayout(img, lay)
    requires ReadVars(Raw(img, lay), STORE_HEADER, lay.storeSize) == Success(scan)
    ensures AllPackable(scan.vars)
    ensures scan.vars == Added(AllRecords(Raw(img, lay), STORE_HEADER, lay.storeSize))
    ensures AllWellFormed(scan.vars) <==> InBounds(Raw(img, lay), STORE_HEADER, lay.storeSize)
    ensures Fits(lay, scan.vars) ==>
      && Write(Write(img, lay, scan.vars), lay, scan.vars) == Write(img, lay, scan.vars)
      && (ReadsBack(img, lay, scan.vars)
          <==> if AllWellFormed(scan.vars) then TailReadable(img, lay, scan.vars)
               else STORE_HEADER + |EncodeAll(scan.vars)| == |Raw(img, lay)|)
    ensures AllWellFormed(scan.vars) && scan.next <= lay.storeSize ==>
      Fits(lay, scan.vars) && TailReadable(img, lay, scan.vars)
  {
    hide Write, Raw, Locate, ReadVars, EncodeAll, AllWellFormed, Packable, InBounds, AllRecords, EndsCut, ReadsBack;
    var raw, vs, end := Raw(img, lay), scan.vars, lay.storeSize;
    RawLength(img, lay);
    ReadsAdded(raw, STORE_HEADER, end);
    ReadEnding(raw, STORE_HEADER, end);
    if AllWellFormed(vs) {
      ReadCompacts(raw, STORE_HEADER, end);
      ReadStops(raw, STORE_HEADER, end);
    }
    if Fits(lay, vs) {
      WriteTwice(img, lay, vs);
      RoundTripExact(img, lay, vs);
    }
  }

  /** How a list that was read can end. */
  lemma ReadEnding(raw: Blob, begin: nat, end: nat)
    requires begin % 4 == 0 && end <= |raw| && ReadVars(raw, begin, end).Success?
    ensures var vs := ReadVars(raw, begin, end).value.vars;
      && AllPackable(vs) && (AllWellFormed(vs) <==> InBounds(raw, begin, end))
      && (AllWellFormed(vs) ==> !EndsCut(vs))
      && (!AllWellFormed(vs) && begin + |EncodeAll(vs)| == |raw| ==> EndsCut(vs))
  {
    hide ReadVars, EncodeAll, AllWellFormed, Packable, InBounds, EndsCut;
    var vs := ReadVars(raw, begin, end).value.vars;
    ReadPackable(raw, begin, end);
    if InBounds(raw, begin, end) {
      ReadIsWellFormed(raw, begin, end);
      NotCut(vs);
    } else {
      OutOfBoundsCut(raw, begin, end);
    }
  }

  lemma OutOfBoundsCut(raw: Blob, begin: nat, end: nat)
    requires begin % 4 == 0 && end <= |raw| && ReadVars(raw, begin, end).Success? && !InBounds(raw, begin, end)
    requires AllPackable(ReadVars(raw, begin, end).value.vars)
    ensures var vs := ReadVars(raw, begin, end).value.vars;
      !AllWellFormed(vs) && (begin + |EncodeAll(vs)| == |raw| ==> EndsCut(vs))
  {
    hide ReadVars, EncodeAll, AllWellFormed, Packable, InBounds, Cut, Actual;
    var vs := ReadVars(raw, begin, end).value.vars;
    OutOfBoundsEnds(raw, begin, end);
    NotWellFormed(vs);
  }

  lemma NotWellFormed(vs: seq<Variable>)
    requires vs != [] && Cut(vs[|vs| - 1])
    ensures !AllWellFormed(vs)
  {
    hide Utf8Valid, Guid2Str, Packable;
    assert vs[|vs| - 1] in vs;
  }

  lemma ReadPackable(raw: Blob, begin: nat, end: nat)
    requires ReadVars(raw, begin, end).Success?
    ensures AllPackable(ReadVars(raw, begin, end).value.vars)
  {
    hide ReadVars, Packable, Utf8Valid, Guid2Str, CutShape;
    ReadGivesShape(raw, begin, end);
  }

  /** Writing a list that fits a second time changes no byte. */
  lemma WriteTwice(img: Blob, lay: Layout, vs: seq<Variable>)
    requires AllPackable(vs) && Fits(lay, vs) && lay.hdrLen + lay.storeSize <= |img|
    ensures Write(Write(img, lay, vs), lay, vs) == Write(img, lay, vs)
  {
    hide Write, EncodeAll, Packable;
    WriterFrame(img, lay, vs);
    var out := Write(img, lay, vs);
    WriteShape(img, lay, vs);
    WriteShape(out, lay, vs);
    assert out[..RegionStart(lay)] == img[..RegionStart(lay)];
    assert out[lay.hdrLen + lay.storeSize..] == img[lay.hdrLen + lay.storeSize..];
  }
}
