/** The message body clients store: a request and a response or error, length-prefixed. The
    writer is the Scala `data2save`, the reader the TypeScript `asServingReqRes`
    (tsclient/recstore-ts/src/index.ts). */
module Payload {
  import opened Bytes
  import opened Frames
  import opened Options

  // ----- the reader -----

  /** `|` on bit patterns. */
  function BitOr(a: nat, b: nat): nat {
    if a == 0 && b == 0 then 0
    else 2 * BitOr(a / 2, b / 2) + if a % 2 == 1 || b % 2 == 1 then 1 else 0
  }

  /** `<<` on 32-bit patterns. */
  function ShiftLeft(x: nat, k: nat): u32 {
    x * Pow2(k) % TWO32
  }

  /** `b[i]` in an operand position: a byte, or undefined, which counts as 0. */
  function ByteAt(b: seq<byte>, i: nat): byte {
    if i < |b| then b[i] else 0
  }

  /** `readInt`: shifts and ors, read as a signed 32-bit number. */
  function ReadInt(b: seq<byte>, offset: nat): int {
    var x1 := ShiftLeft(ByteAt(b, 0 + offset), 24);
    var x2 := ShiftLeft(ByteAt(b, 1 + offset), 16);
    var x3 := ShiftLeft(ByteAt(b, 2 + offset), 8);
    var x4 := ShiftLeft(ByteAt(b, 3 + offset), 0);
    Signed(BitOr(BitOr(BitOr(x1, x2), x3), x4), TWO32)
  }

  lemma {:induction false} OrZero(a: nat)
    ensures BitOr(a, 0) == a
  {
    if a > 0 {
      OrZero(a / 2);
    }
  }

  /** Or-ing a pattern into k free low bits adds it. */
  lemma {:induction false} OrAdds(q: nat, b: nat, k: nat)
    requires b < Pow2(k)
    ensures BitOr(q * Pow2(k), b) == q * Pow2(k) + b
  {
    var a := q * Pow2(k);
    if k == 0 {
      OrZero(a);
    } else if a != 0 || b != 0 {
      var half := q * Pow2(k - 1);
      assert a == 2 * half;
      assert a / 2 == half && a % 2 == 0;
      OrAdds(q, b / 2, k - 1);
    }
  }

  lemma PowersUsed()
    ensures Pow2(0) == 1 && Pow2(8) == 0x100 && Pow2(16) == 0x1_0000 && Pow2(24) == 0x100_0000
  {
  }

  function FourBytes(x1: nat, x2: nat, x3: nat, x4: nat): nat {
    x1 * 0x100_0000 + x2 * 0x1_0000 + x3 * 0x100 + x4
  }

  lemma OrOfBytes(x1: nat, x2: nat, x3: nat, x4: nat)
    requires x1 < 256 && x2 < 256 && x3 < 256 && x4 < 256
    ensures BitOr(BitOr(BitOr(x1 * 0x100_0000, x2 * 0x1_0000), x3 * 0x100), x4) == FourBytes(x1, x2, x3, x4)
  {
    PowersUsed();
    OrAdds(x1, x2 * 0x1_0000, 24);
    OrAdds(x1 * 0x100 + x2, x3 * 0x100, 16);
    OrAdds(x1 * 0x1_0000 + x2 * 0x100 + x3, x4, 8);
  }

  lemma BigEndianOfFour(bs: seq<byte>)
    requires |bs| == 4
    ensures FromBigEndian(bs) == FourBytes(bs[0], bs[1], bs[2], bs[3])
  {
    var x1: nat, x2: nat, x3: nat := bs[0], bs[1], bs[2];
    assert FromBigEndian(bs[..3][..2][..1]) == x1;
    assert FromBigEndian(bs[..3][..2]) == x1 * 256 + x2;
    assert FromBigEndian(bs[..3]) == (x1 * 256 + x2) * 256 + x3;
  }

  /** A shift that loses no bit multiplies. */
  lemma ShiftMultiplies(x: nat, k: nat, power: nat)
    requires power == Pow2(k) && x * power < TWO32
    ensures ShiftLeft(x, k) == x * power
  {
  }

  /** The shifts and ors compute the big-endian signed 32-bit number. */
  lemma ReadIntIsBigEndian(b: seq<byte>, offset: nat)
    requires offset + 4 <= |b|
    ensures ReadInt(b, offset) == ReadInt32(b[offset..offset + 4])
  {
    var x1, x2, x3, x4 := b[offset], b[offset + 1], b[offset + 2], b[offset + 3];
    PowersUsed();
    ShiftMultiplies(x1, 24, 0x100_0000);
    ShiftMultiplies(x2, 16, 0x1_0000);
    ShiftMultiplies(x3, 8, 0x100);
    ShiftMultiplies(x4, 0, 1);
    OrOfBytes(x1, x2, x3, x4);
    BigEndianOfFour(b[offset..offset + 4]);
  }

  /** `Uint8Array.prototype.slice`: negative bounds count from the end, all bounds are clamped. */
  function Slice(b: seq<byte>, start: int, end: int): seq<byte> {
    var from := Clamp(start, |b|);
    var to := Clamp(end, |b|);
    if from < to then b[from..to] else []
  }

  function Clamp(bound: int, n: nat): (c: nat)
    ensures c <= n
  {
    if bound < 0 then (if n + bound < 0 then 0 else n + bound)
    else if bound < n then bound else n
  }

  /** `decode`: a presence byte, then the protobuf bytes handed to the decoder. */
  function Body(data: seq<byte>): seq<byte> {
    if |data| > 0 && data[0] == 0 then [] else Slice(data, 1, |data|)
  }

  /** The two alternatives, holding the bytes given to `ExecutionError.decode` or
      `PredictResponse.decode`. */
  datatype RespOrError = ExecutionError(body: seq<byte>) | PredictResponse(body: seq<byte>)
  datatype ReqRes = ReqRes(req: seq<byte>, resp: RespOrError)

  function DecodeRespOrError(data: seq<byte>): Result<RespOrError> {
    var num := ReadInt(data, 0);
    var body := Slice(data, 4, |data|);
    if num == 2 then Ok(ExecutionError(Body(body)))
    else if num == 3 then Ok(PredictResponse(Body(body)))
    else Err("Invalid Resp Or Error number")
  }

  function AsServingReqRes(data: seq<byte>): Result<ReqRes> {
    ReadParts(data, ReadInt(data, 0), ReadInt(data, 4))
  }

  function ReadParts(data: seq<byte>, reqSize: int, respSize: int): Result<ReqRes> {
    var reqBody := Slice(data, 8, 8 + reqSize);
    var respBody := Slice(data, 8 + reqSize, 8 + reqSize + respSize);
    match DecodeRespOrError(respBody)
    case Err(error) => Err(error)
    case Ok(resp) => Ok(ReqRes(Body(reqBody), resp))
  }

  // ----- the writer -----

  /** java.nio.ByteBuffer: a fixed buffer and a cursor moved by every put. */
  class ByteBuffer {
    const hb: array<byte>
    var position: nat

    ghost predicate Valid() reads this {
      position <= hb.Length
    }

    function Written(): seq<byte>
      requires Valid()
      reads this, hb
    {
      hb[..position]
    }

    constructor Allocate(capacity: nat)
      ensures Valid() && fresh(hb) && hb.Length == capacity && position == 0
    {
      hb := new byte[capacity];
      position := 0;
    }

    method Put(src: seq<byte>)
      requires Valid() && position + |src| <= hb.Length
      modifies this, hb
      ensures Valid() && position == old(position) + |src| && Written() == old(Written()) + src
    {
      var k := 0;
      while k < |src|
        invariant k <= |src| && position == old(position) + k <= hb.Length
        invariant hb[..position] == old(hb[..position]) + src[..k]
      {
        hb[position] := src[k];
        position := position + 1;
        k := k + 1;
      }
      assert src[..k] == src;
    }

    method PutInt(x: nat)
      requires Valid() && x < TWO31 && position + 4 <= hb.Length
      modifies this, hb
      ensures Valid() && position == old(position) + 4 && Written() == old(Written()) + BigEndian(x, 4)
    {
      Put(BigEndian(x, 4));
    }
  }

  /** Presence byte and body. */
  function Present(body: seq<byte>): (bs: seq<byte>)
    ensures |bs| == 1 + |body|
  {
    [1] + body
  }

  function Layout(req: seq<byte>, resp: seq<byte>, tag: nat): (bs: seq<byte>)
    ensures |bs| == 14 + |req| + |resp|
  {
    BigEndian(1 + |req|, 4) + BigEndian(5 + |resp|, 4) + Present(req) + (BigEndian(tag, 4) + Present(resp))
  }

  method PresentArray(body: seq<byte>) returns (bytes: seq<byte>)
    ensures bytes == Present(body)
  {
    var buffer := new ByteBuffer.Allocate(|body| + 1);
    buffer.Put([1]);
    buffer.Put(body);
    bytes := buffer.Written();
  }

  method TaggedArray(tag: nat, body: seq<byte>) returns (bytes: seq<byte>)
    requires tag < TWO31
    ensures bytes == BigEndian(tag, 4) + body
  {
    var buffer := new ByteBuffer.Allocate(4 + |body|);
    buffer.PutInt(tag);
    buffer.Put(body);
    bytes := buffer.Written();
  }

  method SizesArray(first: nat, second: nat) returns (bytes: seq<byte>)
    requires first < TWO31 && second < TWO31
    ensures bytes == BigEndian(first, 4) + BigEndian(second, 4)
  {
    var buffer := new ByteBuffer.Allocate(8);
    buffer.PutInt(first);
    buffer.PutInt(second);
    bytes := buffer.Written();
  }

  method JoinedArray(first: seq<byte>, second: seq<byte>, third: seq<byte>) returns (bytes: seq<byte>)
    ensures bytes == first + second + third
  {
    var buffer := new ByteBuffer.Allocate(|first| + |second| + |third|);
    buffer.Put(first);
    buffer.Put(second);
    buffer.Put(third);
    bytes := buffer.Written();
  }

  /** `data2save`, for either alternative; Java arrays stay below 2^31 bytes. */
  method DataToSave(pRequestBody: seq<byte>, pResponseBody: seq<byte>, tag: nat) returns (item: seq<byte>)
    requires 14 + |pRequestBody| + |pResponseBody| < TWO31 && tag < TWO31
    ensures item == Layout(pRequestBody, pResponseBody, tag)
  {
    var pRequest := PresentArray(pRequestBody);
    var pResponse := PresentArray(pResponseBody);
    var respOrError := TaggedArray(tag, pResponse);
    var header := SizesArray(|pRequest|, |respOrError|);
    item := JoinedArray(header, pRequest, respOrError);
  }

  // ----- what the reader makes of a header and two parts -----

  lemma ReadsBack(b: seq<byte>, offset: nat, x: nat)
    requires offset + 4 <= |b| && x < TWO31 && b[offset..offset + 4] == BigEndian(x, 4)
    ensures ReadInt(b, offset) == x
  {
    ReadIntIsBigEndian(b, offset);
    WordSizes();
    BigEndianDecodes(x, 4);
  }

  /** What a presence byte and a body mean: nothing at all, or a zero byte, is no body. */
  predicate MeansBody(part: seq<byte>, body: seq<byte>) {
    if |part| == 0 || part[0] == 0 then body == [] else part == [part[0]] + body
  }

  lemma BodyMeans(part: seq<byte>)
    ensures MeansBody(part, Body(part))
  {
  }

  /** Reading past the end reads zero bytes. */
  lemma ReadIntPads(b: seq<byte>, offset: nat)
    ensures ReadInt(b, offset) == ReadInt(b + [0, 0, 0, 0], offset)
  {
  }

  /** `slice` with bounds of any sign: in place, past the end, counted from the end, before the start. */
  lemma SliceExactly(b: seq<byte>, start: int, end: int)
    ensures 0 <= start <= end <= |b| ==> Slice(b, start, end) == b[start..end]
    ensures end > |b| ==> Slice(b, start, end) == Slice(b, start, |b|)
    ensures -|b| <= start < 0 ==> Slice(b, start, end) == Slice(b, |b| + start, end)
    ensures start < -|b| ==> Slice(b, start, end) == Slice(b, 0, end)
    ensures -|b| <= end < 0 ==> Slice(b, start, end) == Slice(b, start, |b| + end)
    ensures end < -|b| ==> Slice(b, start, end) == []
    ensures 0 <= end <= start ==> Slice(b, start, end) == []
  {
  }

  lemma FiveParts(a: seq<byte>, b: seq<byte>, first: seq<byte>, second: seq<byte>, tail: seq<byte>)
    requires |a| == |b| == 4
    ensures var data := a + b + first + second + tail;
            && data[0..4] == a && data[4..8] == b
            && Slice(data, 8, 8 + |first|) == first && Slice(data, 8 + |first|, 8 + |first| + |second|) == second
  {
  }

  lemma SizesRead(data: seq<byte>, x: nat, y: nat)
    requires x < TWO31 && y < TWO31 && 8 <= |data|
    requires data[0..4] == BigEndian(x, 4) && data[4..8] == BigEndian(y, 4)
    ensures ReadInt(data, 0) == x && ReadInt(data, 4) == y
  {
    ReadsBack(data, 0, x);
    ReadsBack(data, 4, y);
  }

  /** The reader takes apart what the two sizes delimit. */
  lemma DelimitedRead(data: seq<byte>, first: seq<byte>, second: seq<byte>)
    requires Slice(data, 8, 8 + |first|) == first && Slice(data, 8 + |first|, 8 + |first| + |second|) == second
    ensures ReadParts(data, |first|, |second|)
         == match DecodeRespOrError(second)
            case Err(error) => Err(error)
            case Ok(resp) => Ok(ReqRes(Body(first), resp))
  {
  }

  lemma TaggedPart(tag: nat, part: seq<byte>)
    requires tag < TWO31
    ensures ReadInt(BigEndian(tag, 4) + part, 0) == tag
    ensures Slice(BigEndian(tag, 4) + part, 4, 4 + |part|) == part
  {
    var data := BigEndian(tag, 4) + part;
    assert data[0..4] == BigEndian(tag, 4);
    ReadsBack(data, 0, tag);
  }

  /** For two parts of any content, present or absent, behind a header with their sizes: the request
      is the first part's body; the second is a tag and a part whose body is the error (2) or the
      response (3); any other tag is an error, and what follows is ignored. */
  lemma PartsRead(first: seq<byte>, tag: nat, second: seq<byte>, tail: seq<byte>)
    requires |first| < TWO31 && 4 + |second| < TWO31 && tag < TWO31
    ensures var result := AsServingReqRes(BigEndian(|first|, 4) + BigEndian(4 + |second|, 4) + first
                                          + (BigEndian(tag, 4) + second) + tail);
            && (result.Ok? <==> tag == 2 || tag == 3)
            && (result.Ok? ==>
                  && MeansBody(first, result.value.req) && MeansBody(second, result.value.resp.body)
                  && (result.value.resp.ExecutionError? <==> tag == 2))
  {
    var a, b, tagged := BigEndian(|first|, 4), BigEndian(4 + |second|, 4), BigEndian(tag, 4) + second;
    FiveParts(a, b, first, tagged, tail);
    SizesRead(a + b + first + tagged + tail, |first|, |tagged|);
    DelimitedRead(a + b + first + tagged + tail, first, tagged);
    TaggedPart(tag, second);
    BodyMeans(first);
    BodyMeans(second);
  }

  /** An absent request, and an absent response: a zero presence byte, whatever follows it. */
  lemma AbsentBodies(req: seq<byte>, resp: seq<byte>, junk: seq<byte>, tag: nat)
    requires 14 + |req| + |resp| + |junk| < TWO31 && (tag == 2 || tag == 3)
    ensures var result := AsServingReqRes(BigEndian(1 + |junk|, 4) + BigEndian(4 + (1 + |resp|), 4) + ([0] + junk)
                                          + (BigEndian(tag, 4) + ([1] + resp)) + []);
            result == Ok(ReqRes([], if tag == 2 then ExecutionError(resp) else PredictResponse(resp)))
    ensures var result := AsServingReqRes(BigEndian(1 + |req|, 4) + BigEndian(4 + (1 + |junk|), 4) + ([1] + req)
                                          + (BigEndian(tag, 4) + ([0] + junk)) + []);
            result == Ok(ReqRes(req, if tag == 2 then ExecutionError([]) else PredictResponse([])))
  {
    var absent, request, response := [0] + junk, [1] + req, [1] + resp;
    PartsRead(absent, tag, response, []);
    PartsRead(request, tag, absent, []);
    assert request[1..] == req && response[1..] == resp;
  }

  /** The saved item byte by byte: both sizes, the presence byte and the request, the tag, the presence
      byte and the response. */
  lemma LayoutBytes(req: seq<byte>, resp: seq<byte>, tag: nat, i: nat)
    ensures var item := Layout(req, resp, tag);
            && |item| == 14 + |req| + |resp|
            && (i < 4 ==> item[i] == (1 + |req|) / Pow256(3 - i) % 256)
            && (i < 4 ==> item[4 + i] == (5 + |resp|) / Pow256(3 - i) % 256)
            && item[8] == 1 && item[9..9 + |req|] == req
            && (i < 4 ==> item[9 + |req| + i] == tag / Pow256(3 - i) % 256)
            && item[13 + |req|] == 1 && item[14 + |req|..] == resp
  {
    if i < 4 {
      BigEndianDigit(1 + |req|, 4, i);
      BigEndianDigit(5 + |resp|, 4, i);
      BigEndianDigit(tag, 4, i);
    }
  }

  // ----- round trip -----

  lemma PresentMeans(body: seq<byte>)
    ensures forall b: seq<byte> :: MeansBody(Present(body), b) ==> b == body
  {
    assert Present(body)[1..] == body;
  }

  /** For all bytes the reader recovers the request and the response, and tells errors (2) from
      responses (3); it rejects every other tag. */
  lemma PayloadRoundTrip(req: seq<byte>, resp: seq<byte>, tag: nat)
    requires 14 + |req| + |resp| < TWO31 && tag < TWO31
    ensures tag == 2 ==> AsServingReqRes(Layout(req, resp, tag)) == Ok(ReqRes(req, ExecutionError(resp)))
    ensures tag == 3 ==> AsServingReqRes(Layout(req, resp, tag)) == Ok(ReqRes(req, PredictResponse(resp)))
    ensures AsServingReqRes(Layout(req, resp, tag)).Ok? <==> tag == 2 || tag == 3
  {
    PartsRead(Present(req), tag, Present(resp), []);
    var item := Layout(req, resp, tag);
    assert item + [] == item;
    PresentMeans(req);
    PresentMeans(resp);
  }
}
