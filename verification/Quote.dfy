/** Quote requests and responses exchanged through the 16 KB buffer of /dev/tdx-guest
    (DeviceNode in utility.py). The packing is that of a little-endian x86 host. */
module Quote {
  import opened Sequences
  import opened Outcomes
  import opened Bytes

  const QUOTE_LEN := 4 * 4096

  // ---- the request ----

  /** The 24-byte head of qgs_msg_quote_req for a report of n bytes. */
  function MessageHead(n: nat): (h: Blob)
    ensures |h| == 24
  {
    Le(1, 2) + Le(0, 2) + Le(0, 4) + Le(24 + n, 4) + Le(0, 4) + Le(n, 4) + Le(0, 4)
  }

  /** qgs_msg_quote_req */
  function QuoteMessage(report: Blob): Blob {
    MessageHead(|report|) + report
  }

  /** The bytes that create_tdx_quote_req packs: the message is cut to the length of the report,
      24 bytes short of its own. */
  function RequestHead(report: Blob): (h: Blob)
    ensures |h| == 28 + |report|
  {
    var msg := QuoteMessage(report);
    Le(1, 8) + Le(0, 8) + Le(|msg| + 4, 4) + Le(0, 4) + Be(|msg|, 4) + msg[..|report|]
  }

  /** The buffer of create_tdx_quote_req, or the exception of a report that does not fit. */
  function RequestBuffer(report: Blob): (r: Result<Blob>)
    ensures r.Success? ==> |r.value| == QUOTE_LEN
  {
    if |RequestHead(report)| >= WORD then Failure(StructError)
    else if |RequestHead(report)| > QUOTE_LEN then Failure(ValueError)
    else Success(RequestHead(report) + Fill(0, QUOTE_LEN - |RequestHead(report)|))
  }

  predicate AllZero(s: Blob) { forall i :: 0 <= i < |s| ==> s[i] == 0 }

  /** The buffer holds the length-prefixed message. */
  predicate Carries(buffer: Blob, msg: Blob) {
    28 + |msg| <= |buffer| && buffer[24..28] == Be(|msg|, 4) && buffer[28..28 + |msg|] == msg
  }

  lemma HeadBytes(n: nat)
    requires 0 < n < 256
    ensures MessageHead(n)[0] == 1 && MessageHead(n)[16] == n
    ensures forall i :: 17 <= i < 24 ==> MessageHead(n)[i] == 0
  {
    SmallLe(n);
    SmallLe(0);
    FirstByte(n);
    hide Le;
  }

  /** The 24 bytes of the message that the request leaves out. */
  function Dropped(report: Blob): (d: Blob)
    ensures |d| == 24
  {
    QuoteMessage(report)[|report|..]
  }

  /** The dropped bytes are zero exactly for reports of at least 17 bytes whose last 24 bytes, or all
      of whose bytes if there are fewer, are zero. */
  lemma DroppedIsZero(report: Blob)
    ensures AllZero(Dropped(report)) <==>
      |report| >= 17 && AllZero(report[if |report| >= 24 then |report| - 24 else 0..])
  {
    hide MessageHead;
    var n, d := |report|, Dropped(report);
    if n >= 24 {
      assert d == report[n - 24..];
    } else {
      assert d == MessageHead(n)[n..] + report;
      if n == 0 {
        FirstByte(0);
        assert d[0] == 1;
      } else {
        HeadBytes(n);
        if n <= 16 {
          assert d[16 - n] == n;
        } else {
          assert forall i :: 0 <= i < 24 - n ==> d[i] == 0;
          assert report[0..] == report;
          assert forall i :: 0 <= i < n ==> d[24 - n + i] == report[i];
        }
      }
    }
  }

  lemma FirstByte(n: nat)
    ensures MessageHead(n)[0] == 1
  {
    assert Le(1, 2) == [1] + Le(0, 1);
  }

  lemma RequestSlices(report: Blob)
    requires RequestBuffer(report).Success?
    ensures var b, n := RequestBuffer(report).value, |report|;
      && b[24..28] == Be(24 + n, 4) && b[28..28 + n] == QuoteMessage(report)[..n]
      && forall i :: 28 + n <= i < QUOTE_LEN ==> b[i] == 0
  {
    hide Le, Be, MessageHead;
  }

  /** The request carries its message if and only if the message fits the buffer and the bytes cut
      off are zero: at least 17 bytes of report, with its last 24 bytes zero. */
  lemma RequestCarriesMessage(report: Blob)
    requires RequestBuffer(report).Success?
    ensures Carries(RequestBuffer(report).value, QuoteMessage(report)) <==>
      52 + |report| <= 16384 && |report| >= 17
      && AllZero(report[if |report| >= 24 then |report| - 24 else 0..])
  {
    hide RequestBuffer, QuoteMessage, Be;
    RequestSlices(report);
    DroppedIsZero(report);
    MessageParts(report);
    var b, n, msg := RequestBuffer(report).value, |report|, QuoteMessage(report);
    if 28 + |msg| <= QUOTE_LEN {
      var got, lost := b[28..28 + |msg|], b[28 + n..28 + |msg|];
      JoinSlices(b, 28, 28 + n, 28 + |msg|);
      assert AllZero(lost);
      SameTail(msg[..n], lost, Dropped(report));
    }
  }

  lemma SameTail(front: Blob, zeros: Blob, tail: Blob)
    requires AllZero(zeros) && |zeros| == |tail|
    ensures front + zeros == front + tail <==> AllZero(tail)
  {
    if front + zeros == front + tail {
      assert zeros == (front + zeros)[|front|..] == (front + tail)[|front|..] == tail;
    }
    if AllZero(tail) {
      assert zeros == tail;
    }
  }

  lemma MessageParts(report: Blob)
    ensures |QuoteMessage(report)| == 24 + |report|
    ensures QuoteMessage(report) == QuoteMessage(report)[..|report|] + Dropped(report)
  {
  }

  /** The fields of a quote request as the quoting service reads them. */
  datatype RequestFields = RequestFields(
    major: nat, minor: nat, kind: nat, size: nat, error: nat, reportSize: nat, idListSize: nat, report: Blob)

  function ReadRequest(msg: Blob): RequestFields
    requires |msg| >= 24
  {
    RequestFields(FromLe(msg[0..2]), FromLe(msg[2..4]), FromLe(msg[4..8]), FromLe(msg[8..12]), FromLe(msg[12..16]),
                  FromLe(msg[16..20]), FromLe(msg[20..24]), msg[24..])
  }

  /** The message is a version 1.0 quote request for exactly the report, with no id list, and the
      buffer announces it with version 1, status 0 and its length plus the prefix. */
  lemma RequestReads(report: Blob)
    requires RequestBuffer(report).Success?
    ensures ReadRequest(QuoteMessage(report)) == RequestFields(1, 0, 0, 24 + |report|, 0, |report|, 0, report)
    ensures var b := RequestBuffer(report).value;
      && |b| == 16384 && (forall i :: 28 + |report| <= i < 16384 ==> b[i] == 0)
      && FromLe(b[0..8]) == 1 && FromLe(b[8..16]) == 0 && FromLe(b[16..20]) == 28 + |report| && FromLe(b[20..24]) == 0
  {
    hide Le, Be, FromLe;
    var n, msg, b := |report|, QuoteMessage(report), RequestBuffer(report).value;
    Limits();
    LeInverse(1, 2); LeInverse(0, 2); LeInverse(0, 4); LeInverse(24 + n, 4); LeInverse(n, 4);
    LeInverse(1, 8); LeInverse(0, 8); LeInverse(28 + n, 4);
    assert msg[0..2] == Le(1, 2) && msg[2..4] == Le(0, 2) && msg[4..8] == Le(0, 4) && msg[8..12] == Le(24 + n, 4);
    assert msg[12..16] == Le(0, 4) && msg[16..20] == Le(n, 4) && msg[20..24] == Le(0, 4) && msg[24..] == report;
    assert b[0..8] == Le(1, 8) && b[8..16] == Le(0, 8) && b[16..20] == Le(28 + n, 4) && b[20..24] == Le(0, 4);
  }

  /** The request is built exactly for reports that fit behind its 28 bytes of head; other reports overrun the
      buffer, or the length field. */
  lemma RequestFits(report: Blob)
    ensures RequestBuffer(report).Success? <==> 28 + |report| <= 16384
    ensures 16384 < 28 + |report| < 0x1_0000_0000 ==> RequestBuffer(report) == Failure(ValueError)
    ensures 28 + |report| >= 0x1_0000_0000 ==> RequestBuffer(report) == Failure(StructError)
  {
    hide RequestHead;
  }

  // ---- the response ----

  /** A response as the quoting service lays it out: 24 bytes of head, the selected id, the quote. */
  datatype Response = Response(
    major: U16, minor: U16, kind: U32, size: U32, error: U32, id: Blob, quote: Blob)

  predicate Encodable(r: Response) { 24 + |r.id| + |r.quote| + 4 < WORD }

  function EncodeResponse(r: Response): (m: Blob)
    requires Encodable(r)
    ensures |m| == 24 + |r.id| + |r.quote|
  {
    Le(r.major, 2) + Le(r.minor, 2) + Le(r.kind, 4) + Le(r.size, 4) + Le(r.error, 4)
    + Le(|r.id|, 4) + Le(|r.quote|, 4) + r.id + r.quote
  }

  /** The buffer the host fills: version, status, lengths, the length prefix, the response, padding. */
  function ResponseBuffer(version: U64, status: U64, inLen: U32, r: Response, padding: Blob): Blob
    requires Encodable(r)
  {
    var m := EncodeResponse(r);
    Le(version, 8) + Le(status, 8) + Le(inLen, 4) + Le(|m| + 4, 4) + Be(|m|, 4) + m + padding
  }

  /** qgs_msg_quote_resp. The four conditions are joined by "and": only a response that is wrong in
      every field is turned down. */
  function QuoteOfMessage(buf: Blob): Result<Option<Blob>> {
    if |buf| < 24 then Failure(StructError)
    else if FromLe(buf[0..2]) != 1 && FromLe(buf[2..4]) != 0 && FromLe(buf[4..8]) != 1 && FromLe(buf[12..16]) != 0
    then Success(None)
    else Success(Some(Slice(buf[24..], 0, FromLe(buf[20..24]))))
  }

  /** get_tdquote_bytes_from_req on the buffer behind the request. */
  function QuoteOfBuffer(buf: Blob): Result<Option<Blob>> {
    if |buf| < 24 then Failure(StructError)
    else
      var data := buf[24..];
      if FromBe(Slice(data, 0, 4)) != FromLe(buf[20..24]) - 4 then Success(None)
      else QuoteOfMessage(Slice(data, 4, |data|))
  }

  /** A response that the four-way test lets through. */
  predicate Accepted(r: Response) { r.major == 1 || r.minor == 0 || r.kind == 1 || r.error == 0 }

  /** The quote starts with the bytes of the id and repeats itself at the id's length. */
  predicate BeginsLikeId(r: Response) {
    && (forall i :: 0 <= i < |r.quote| && i < |r.id| ==> r.quote[i] == r.id[i])
    && (forall i :: |r.id| <= i < |r.quote| ==> r.quote[i] == r.quote[i - |r.id|])
  }

  lemma ResponseFields(r: Response, rest: Blob)
    requires Encodable(r)
    ensures var b := EncodeResponse(r) + rest;
      && FromLe(b[0..2]) == r.major && FromLe(b[2..4]) == r.minor && FromLe(b[4..8]) == r.kind
      && FromLe(b[12..16]) == r.error && FromLe(b[20..24]) == |r.quote| && b[24..] == r.id + r.quote + rest
  {
    hide Le, FromLe;
    var b := EncodeResponse(r) + rest;
    Limits();
    LeInverse(r.major, 2); LeInverse(r.minor, 2); LeInverse(r.kind, 4);
    LeInverse(r.error, 4); LeInverse(|r.quote|, 4);
    assert b[0..2] == Le(r.major, 2) && b[2..4] == Le(r.minor, 2) && b[4..8] == Le(r.kind, 4);
    assert b[12..16] == Le(r.error, 4) && b[20..24] == Le(|r.quote|, 4);
  }

  lemma BufferFields(version: U64, status: U64, inLen: U32, r: Response, padding: Blob)
    requires Encodable(r)
    ensures var b, m := ResponseBuffer(version, status, inLen, r, padding), EncodeResponse(r);
      && |b| >= 24 && FromLe(b[20..24]) == |m| + 4
      && FromBe(Slice(b[24..], 0, 4)) == |m| && Slice(b[24..], 4, |b[24..]|) == m + padding
  {
    hide Le, FromLe, Be, FromBe, EncodeResponse;
    var b, m := ResponseBuffer(version, status, inLen, r, padding), EncodeResponse(r);
    Limits();
    LeInverse(|m| + 4, 4);
    BeInverse(|m|, 4);
    assert b[20..24] == Le(|m| + 4, 4);
    assert b[24..] == Be(|m|, 4) + (m + padding);
  }

  /** Decoding a filled buffer gives the first bytes of id and quote together, whatever the padding,
      the sizes in the head and the error code; so it gives exactly the quote when no id was selected
      and, with an id, only when the quote begins like the id and then repeats itself at that distance. */
  lemma ResponseDecodes(version: U64, status: U64, inLen: U32, r: Response, padding: Blob)
    requires Encodable(r)
    ensures var out := QuoteOfBuffer(ResponseBuffer(version, status, inLen, r, padding));
      && (!Accepted(r) ==> out == Success(None))
      && (Accepted(r) ==> out == Success(Some((r.id + r.quote)[..|r.quote|])))
      && (out == Success(Some(r.quote)) <==> Accepted(r) && BeginsLikeId(r))
      && (r.id == [] ==> BeginsLikeId(r))
  {
    hide FromLe, FromBe, EncodeResponse, ResponseBuffer;
    BufferFields(version, status, inLen, r, padding);
    ResponseFields(r, padding);
    var all := r.id + r.quote + padding;
    assert all[..|r.quote|] == (r.id + r.quote)[..|r.quote|];
    var first := (r.id + r.quote)[..|r.quote|];
    assert forall i :: 0 <= i < |first| ==> first[i] == if i < |r.id| then r.id[i] else r.quote[i - |r.id|];
    assert first == r.quote <==> forall i :: 0 <= i < |first| ==> first[i] == r.quote[i];
  }

  /** Buffers too short for a response: without the 24 bytes of head, or with nothing behind them. */
  lemma ShortBuffers(buf: Blob)
    ensures |buf| < 24 ==> QuoteOfBuffer(buf) == Failure(StructError)
    ensures |buf| == 24 ==>
      QuoteOfBuffer(buf) == if FromLe(buf[20..24]) == 4 then Failure(StructError) else Success(None)
  {
    hide FromLe;
  }

  /** An id in front of the quote makes the result wrong: one byte of each suffices. */
  lemma SelectedIdSpoilsQuote()
    ensures var r := Response(1, 0, 1, 26, 0, [7], [9]);
      Encodable(r) && QuoteOfBuffer(ResponseBuffer(1, 0, 0, r, [])) == Success(Some([7]))
  {
    var r := Response(1, 0, 1, 26, 0, [7], [9]);
    ResponseDecodes(1, 0, 0, r, []);
    assert ([7] + [9])[..1] == [7];
  }

  // ---- the device node ----

  class DeviceNode {
    var tdquote: array<Byte>

    constructor ()
      ensures fresh(tdquote)
    {
      tdquote := new Byte[0];
    }

    /** create_tdx_quote_req on the 1.0 device: a new zero-filled buffer with the request in front. */
    method CreateTdxQuoteReq(report: Blob) returns (r: Result<()>)
      modifies this
      ensures match RequestBuffer(report)
              case Success(buffer) => r.Success? && fresh(tdquote) && tdquote[..] == buffer
              case Failure(e) => r == Failure(e)
    {
      hide RequestHead;
      var head := RequestHead(report);
      if |head| >= WORD {
        return Failure(StructError);
      }
      tdquote := new Byte[QUOTE_LEN](_ => 0);
      if |head| > tdquote.Length {
        return Failure(ValueError);
      }
      forall i | 0 <= i < |head| {
        tdquote[i] := head[i];
      }
      assert tdquote[..] == head + Fill(0, QUOTE_LEN - |head|);
      r := Success(());
    }

    /** get_tdquote_bytes_from_req after the host has filled the buffer. */
    method GetTdquoteBytes() returns (r: Result<Option<Blob>>)
      ensures r == QuoteOfBuffer(tdquote[..])
    {
      hide FromLe, FromBe, QuoteOfMessage;
      var buf := tdquote[..];
      if |buf| < 24 {
        return Failure(StructError);
      }
      var outLen: int, data := FromLe(buf[20..24]), buf[24..];
      var dataLen := FromBe(Slice(data, 0, 4));
      if dataLen != outLen - 4 {
        return Success(None);
      }
      r := QuoteOfMessage(Slice(data, 4, |data|));
    }
  }
}
