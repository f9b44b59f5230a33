/** The HTTP frame writer (src/handlers/GetRangeHandler.cpp, src/handlers/SubsamplingHandler.cpp)
    and the TypeScript frame parser (tsclient/recstore-ts/src/index.ts). */
module Frames {
  import opened Bytes
  import opened Keys
  import opened Options
  import opened Folders

  const HEADER_SIZE := 20

  /** timestamp, number and body size in network byte order. */
  function Header(id: ID, size: nat): (bs: seq<byte>)
    ensures |bs| == HEADER_SIZE
  {
    BigEndian(id.timestamp, 8) + BigEndian(id.unique, 8) + BigEndian(size, 4)
  }

  function Frame(id: ID, body: Body): (bs: seq<byte>)
    ensures |bs| == HEADER_SIZE + |body|
  {
    Header(id, |body|) + body
  }

  /** A frame byte by byte: timestamp, number and body size, high bytes first, then the body. */
  lemma FrameLayout(id: ID, body: Body, i: nat)
    ensures var frame := Frame(id, body);
            && |frame| == 20 + |body|
            && (i < 8 ==> frame[i] == id.timestamp / Pow256(7 - i) % 256)
            && (i < 8 ==> frame[8 + i] == id.unique / Pow256(7 - i) % 256)
            && (i < 4 ==> frame[16 + i] == |body| / Pow256(3 - i) % 256)
            && frame[20..] == body
  {
    if i < 8 {
      BigEndianDigit(id.timestamp, 8, i);
      BigEndianDigit(id.unique, 8, i);
    }
    if i < 4 {
      BigEndianDigit(|body|, 4, i);
    }
  }

  /** The frames of a list of messages, one after the other. */
  function FrameAll(es: seq<Data>): seq<byte> {
    if |es| == 0 then [] else FrameAll(es[..|es| - 1]) + Frame(es[|es| - 1].id, es[|es| - 1].data)
  }

  lemma FrameAllLast(xs: seq<Data>, d: Data)
    ensures FrameAll(xs + [d]) == FrameAll(xs) + Frame(d.id, d.data)
  {
    assert (xs + [d])[..|xs|] == xs;
  }

  lemma Regroup(a: seq<byte>, b: seq<byte>, c: seq<byte>)
    ensures (a + b) + c == a + (b + c)
  {
  }

  lemma {:induction false} FramesAppend(xs: seq<Data>, ys: seq<Data>)
    ensures FrameAll(xs + ys) == FrameAll(xs) + FrameAll(ys)
  {
    if |ys| == 0 {
      assert xs + ys == xs;
    } else {
      var init, last := ys[..|ys| - 1], ys[|ys| - 1];
      FramesAppend(xs, init);
      FrameAllLast(xs + init, last);
      assert xs + ys == (xs + init) + [last];
      Regroup(FrameAll(xs), FrameAll(init), Frame(last.id, last.data));
    }
  }

  // ----- the parser -----

  /** A double nearest to n is a multiple of this spacing: 1 up to 2^53, then doubling. */
  function Spacing(n: nat): (u: nat)
    ensures u > 0
  {
    if n < TWO53 then 1 else 2 * Spacing(n / 2)
  }

  /** Round to a multiple of u, half to even. */
  function RoundToMultiple(n: nat, u: nat): nat
    requires u > 0
  {
    var q, r := n / u, n % u;
    if 2 * r < u || (2 * r == u && q % 2 == 0) then q * u else (q + 1) * u
  }

  /** As a sum of two doubles does. */
  function RoundToDouble(n: nat): nat {
    RoundToMultiple(n, Spacing(n))
  }

  /** `Long.toNumber()`. */
  function ToNumber(x: int): int {
    if x < 0 then 0 - RoundToDouble(-x) else RoundToDouble(x)
  }

  // ----- doubles -----

  function Scaled(k: nat, e: nat): nat {
    k * Pow2(e)
  }

  /** m is a double: 53 significant bits and an exponent. */
  ghost predicate IsDouble(m: nat) {
    exists k, e :: 0 <= k <= TWO53 && 0 <= e && Scaled(k, e) == m
  }

  /** m is a double whose 53-bit significand is even. */
  ghost predicate IsEvenDouble(m: nat) {
    exists k, e :: TWO53 <= 2 * k && k <= TWO53 && 0 <= e && k % 2 == 0 && Scaled(k, e) == m
  }

  function Distance(a: int, b: int): nat {
    if a < b then b - a else a - b
  }

  /** The spacing is the power of two that leaves n 53 bits. */
  lemma {:induction false} SpacingExponent(n: nat) returns (e: nat)
    ensures Spacing(n) == Pow2(e) && n < TWO53 * Pow2(e)
    ensures e > 0 ==> TWO53 * Pow2(e) <= 2 * n
    decreases n
  {
    e := 0;
    if n >= TWO53 {
      var half := SpacingExponent(n / 2);
      e := half + 1;
    }
  }

  lemma {:induction false} PowersAdd(a: nat, b: nat)
    ensures Pow2(a + b) == Pow2(a) * Pow2(b)
  {
    if a > 0 {
      PowersAdd(a - 1, b);
    }
  }

  lemma TimesAtMost(k: nat, l: nat, p: nat)
    requires k <= l
    ensures k * p <= l * p
  {
  }

  /** A double next to a number with spacing 2^e > 1 is a multiple of the spacing, or at most 2^52 of
      them. */
  lemma DoublesNear(k: nat, f: nat, e: nat) returns (j: nat)
    requires k <= TWO53 && e > 0
    ensures Scaled(k, f) == j * Pow2(e) || 2 * Scaled(k, f) <= TWO53 * Pow2(e)
  {
    if f >= e {
      PowersAdd(f - e, e);
      j := k * Pow2(f - e);
    } else {
      j := 0;
      PowersAdd(e - 1 - f, f);
      TimesAtMost(k, TWO53, Pow2(f));
      TimesAtMost(1, Pow2(e - 1 - f), Pow2(f));
    }
  }

  lemma MultipleBelow(n: nat, u: nat, j: nat)
    requires u > 0 && j <= n / u
    ensures Distance(j * u, n) >= n % u
    ensures Distance((n / u) * u, n) == n % u
    ensures Distance(j * u, n) == n % u ==> j * u == (n / u) * u
  {
    assert n == (n / u) * u + n % u;
    TimesAtMost(j, n / u, u);
  }

  lemma MultipleAbove(n: nat, u: nat, j: nat)
    requires u > 0 && j > n / u
    ensures Distance(j * u, n) >= u - n % u
    ensures Distance((n / u + 1) * u, n) == u - n % u
    ensures Distance(j * u, n) == u - n % u ==> j * u == (n / u + 1) * u
  {
    var q := n / u;
    assert n == q * u + n % u && (q + 1) * u == q * u + u;
    TimesAtMost(q + 1, j, u);
  }

  /** Among the multiples of u, the rounded one is nearest to n. */
  lemma NearestMultiple(n: nat, u: nat, j: nat)
    requires u > 0
    ensures Distance(RoundToMultiple(n, u), n) <= Distance(j * u, n)
    ensures Distance(RoundToMultiple(n, u), n) == Distance(j * u, n) && j * u != RoundToMultiple(n, u) ==> 2 * (n % u) == u
  {
    MultipleBelow(n, u, n / u);
    MultipleAbove(n, u, n / u + 1);
    if j <= n / u {
      MultipleBelow(n, u, j);
    } else {
      MultipleAbove(n, u, j);
    }
  }

  lemma RoundedIsDouble(n: nat)
    ensures IsDouble(RoundToDouble(n))
  {
    var e := SpacingExponent(n);
    var u := Spacing(n);
    var q := n / u;
    QuotientBelow(n, u, TWO53);
    assert Scaled(q, e) == q * u && Scaled(q + 1, e) == (q + 1) * u;
  }

  lemma QuotientBelow(n: nat, u: nat, bound: nat)
    requires u > 0 && n < bound * u
    ensures n / u < bound
  {
  }

  lemma QuotientAtLeast(n: nat, u: nat, bound: nat)
    requires u > 0 && bound * u <= n
    ensures bound <= n / u && bound * u <= (n / u) * u <= n
  {
    var q, r := n / u, n % u;
    assert n == q * u + r;
    if q < bound {
      TimesAtMost(q + 1, bound, u);
      assert false;
    } else {
      TimesAtMost(bound, q, u);
    }
  }

  /** What rounding a large number does, as a multiple of its spacing. */
  lemma LargeSpacing(n: nat) returns (e: nat)
    requires n >= TWO53
    ensures e > 0 && Spacing(n) == Pow2(e)
    ensures TWO53 <= 2 * (n / Spacing(n)) && n / Spacing(n) < TWO53
    ensures TWO53 * Spacing(n) <= 2 * ((n / Spacing(n)) * Spacing(n)) <= 2 * n
  {
    e := SpacingExponent(n);
    QuotientBelow(n, Pow2(e), TWO53);
    assert e > 0;
    QuotientAtLeast(n, Pow2(e), TWO53 / 2);
  }

  /** No double is nearer, and only the other neighbour is as near. */
  lemma LargeIsNearest(n: nat, k: nat, f: nat)
    requires n >= TWO53 && k <= TWO53
    ensures Distance(RoundToDouble(n), n) <= Distance(Scaled(k, f), n)
    ensures Scaled(k, f) != RoundToDouble(n) && Distance(RoundToDouble(n), n) == Distance(Scaled(k, f), n)
            ==> 2 * (n % Spacing(n)) == Spacing(n)
  {
    var e := LargeSpacing(n);
    var j := DoublesNear(k, f, e);
    NearestMultiple(n, Spacing(n), j);
    NearestMultiple(n, Spacing(n), n / Spacing(n));
  }

  lemma TieIsEven(n: nat)
    requires n >= TWO53 && 2 * (n % Spacing(n)) == Spacing(n)
    ensures IsEvenDouble(RoundToDouble(n))
  {
    var e := LargeSpacing(n);
    var q := n / Spacing(n);
    var k := if q % 2 == 0 then q else q + 1;
    EvenScaled(k, e);
    assert RoundToDouble(n) == k * Spacing(n);
  }

  lemma EvenScaled(k: nat, e: nat)
    requires TWO53 <= 2 * k && k <= TWO53 && k % 2 == 0
    ensures IsEvenDouble(k * Pow2(e))
  {
    assert Scaled(k, e) == k * Pow2(e);
  }

  /** `toNumber` rounds to a nearest double, on a tie to the even one, on both sides of zero. */
  lemma ToNumberIsNearest(n: nat, m: nat)
    requires IsDouble(m)
    ensures ToNumber(n) >= 0 && IsDouble(ToNumber(n)) && ToNumber(0 - n) == 0 - ToNumber(n)
    ensures Distance(ToNumber(n), n) <= Distance(m, n)
    ensures m != ToNumber(n) && Distance(ToNumber(n), n) == Distance(m, n) ==> IsEvenDouble(ToNumber(n))
  {
    RoundedIsDouble(n);
    var k, f :| 0 <= k <= TWO53 && 0 <= f && Scaled(k, f) == m;
    if n < TWO53 {
      assert Spacing(n) == 1;
    } else {
      LargeIsNearest(n, k, f);
      if 2 * (n % Spacing(n)) == Spacing(n) {
        TieIsEven(n);
      }
    }
  }

  /** Whether a stored 64-bit number survives `readLong().toNumber()`. */
  predicate Representable(n: u64) {
    n < TWO63 && n % Spacing(n) == 0
  }

  lemma ToNumberExactIff(n: u64)
    ensures ToNumber(Signed(n, TWO64)) == n <==> Representable(n)
    ensures n <= TWO53 ==> Representable(n)
  {
    if n < TWO63 {
      var u := Spacing(n);
      var q, r := n / u, n % u;
      assert n == q * u + r && (q + 1) * u == q * u + u;
    }
  }

  datatype TsEntry = TsEntry(uid: int, data: seq<byte>)
  datatype TsRecord = TsRecord(ts: int, entries: seq<TsEntry>)

  /** One turn of the parser's loop at the start of `bytes`: the record, as read, and its length. */
  function ReadFrame(bytes: seq<byte>): (r: Result<(TsRecord, nat)>)
    ensures r.Ok? ==> HEADER_SIZE <= r.value.1 <= |bytes|
  {
    if |bytes| < HEADER_SIZE then Err("RangeError")
    else
      var len := ReadInt32(bytes[16..20]);
      if len < 0 || HEADER_SIZE + len > |bytes| then Err("RangeError")
      else Ok((TsRecord(ToNumber(ReadInt64(bytes[..8])),
                        [TsEntry(ToNumber(ReadInt64(bytes[8..16])), bytes[HEADER_SIZE..HEADER_SIZE + len])]),
               HEADER_SIZE + len))
  }

  function ReadInt64(bs: seq<byte>): int
    requires |bs| == 8
  {
    Signed(FromBigEndian(bs), TWO64)
  }

  function ReadInt32(bs: seq<byte>): int
    requires |bs| == 4
  {
    Signed(FromBigEndian(bs), TWO32)
  }

  /** Every record in the stream, or the first error. */
  function Records(bytes: seq<byte>): Result<seq<TsRecord>> {
    if |bytes| == 0 then Ok([])
    else match ReadFrame(bytes)
      case Err(error) => Err(error)
      case Ok((record, used)) =>
        match Records(bytes[used..])
        case Err(error) => Err(error)
        case Ok(rest) => Ok([record] + rest)
  }

  /** Records already read, followed by those still in the stream. */
  function Resume(read: seq<TsRecord>, bytes: seq<byte>): Result<seq<TsRecord>> {
    match Records(bytes)
    case Err(error) => Err(error)
    case Ok(rest) => Ok(read + rest)
  }

  lemma ResumeStep(read: seq<TsRecord>, bytes: seq<byte>)
    requires |bytes| > 0
    ensures ReadFrame(bytes).Err? ==> Resume(read, bytes) == Err(ReadFrame(bytes).error)
    ensures ReadFrame(bytes).Ok? ==>
              var (record, used) := ReadFrame(bytes).value;
              Resume(read, bytes) == Resume(read + [record], bytes[used..])
  {
    if ReadFrame(bytes).Ok? {
      var (record, used) := ReadFrame(bytes).value;
      if Records(bytes[used..]).Ok? {
        var rest := Records(bytes[used..]).value;
        assert read + ([record] + rest) == (read + [record]) + rest;
      }
    }
  }

  lemma ResumeStart(bytes: seq<byte>)
    ensures Records(bytes) == Resume([], bytes[0..])
  {
    assert bytes[0..] == bytes;
    assert Records(bytes).Ok? ==> [] + Records(bytes).value == Records(bytes).value;
  }

  lemma ResumeEnd(read: seq<TsRecord>, bytes: seq<byte>)
    requires |bytes| == 0
    ensures Resume(read, bytes) == Ok(read)
  {
    assert read + [] == read;
  }

  lemma Skip(bytes: seq<byte>, offset: nat, used: nat)
    requires offset + used <= |bytes|
    ensures bytes[offset..][used..] == bytes[offset + used..]
  {
  }

  /** `decodeTsRecord`: a cursor over the buffer, one frame per turn, at least 20 bytes each. */
  method DecodeTsRecord(bytes: seq<byte>) returns (r: Result<seq<TsRecord>>)
    ensures r == Records(bytes)
  {
    var offset := 0;
    var records: seq<TsRecord> := [];
    ResumeStart(bytes);
    while offset < |bytes|
      invariant 0 <= offset <= |bytes|
      invariant Records(bytes) == Resume(records, bytes[offset..])
      decreases |bytes| - offset
    {
      var turn := ReadFrame(bytes[offset..]);
      ResumeStep(records, bytes[offset..]);
      if turn.Err? {
        return Err(turn.error);
      }
      var (record, used) := turn.value;
      Skip(bytes, offset, used);
      records := records + [record];
      offset := offset + used;
    }
    ResumeEnd(records, bytes[offset..]);
    r := Ok(records);
  }

  /** What the parser should return for one message. */
  function RecordOf(d: Data): TsRecord {
    TsRecord(ToNumber(Signed(d.id.timestamp, TWO64)),
             [TsEntry(ToNumber(Signed(d.id.unique, TWO64)), d.data)])
  }

  function RecordsOf(ds: seq<Data>): seq<TsRecord> {
    seq(|ds|, i requires 0 <= i < |ds| => RecordOf(ds[i]))
  }

  lemma HeaderReads(id: ID, size: nat, tail: seq<byte>)
    requires size < TWO31
    ensures var bytes := Header(id, size) + tail;
            && ReadInt64(bytes[..8]) == Signed(id.timestamp, TWO64)
            && ReadInt64(bytes[8..16]) == Signed(id.unique, TWO64)
            && ReadInt32(bytes[16..20]) == size
  {
    WordSizes();
    BigEndianDecodes(id.timestamp, 8);
    BigEndianDecodes(id.unique, 8);
    BigEndianDecodes(size, 4);
    var bytes := Header(id, size) + tail;
    assert bytes[..8] == BigEndian(id.timestamp, 8);
    assert bytes[8..16] == BigEndian(id.unique, 8);
    assert bytes[16..20] == BigEndian(size, 4);
  }

  lemma FrameParts(header: seq<byte>, body: seq<byte>, rest: seq<byte>)
    requires |header| == HEADER_SIZE
    ensures var bytes := (header + body) + rest;
            && bytes == header + (body + rest)
            && bytes[HEADER_SIZE..HEADER_SIZE + |body|] == body
            && bytes[HEADER_SIZE + |body|..] == rest
  {
  }

  lemma FrameReads(d: Data, rest: seq<byte>)
    ensures ReadFrame(Frame(d.id, d.data) + rest) == Ok((RecordOf(d), HEADER_SIZE + |d.data|))
    ensures (Frame(d.id, d.data) + rest)[HEADER_SIZE + |d.data|..] == rest
  {
    FrameParts(Header(d.id, |d.data|), d.data, rest);
    HeaderReads(d.id, |d.data|, d.data + rest);
  }

  lemma FrameAllOne(d: Data)
    ensures FrameAll([d]) == Frame(d.id, d.data)
  {
  }

  lemma FrameAllFirst(d: Data, rest: seq<Data>)
    ensures FrameAll([d] + rest) == Frame(d.id, d.data) + FrameAll(rest)
  {
    FrameAllOne(d);
    FramesAppend([d], rest);
  }

  lemma RecordsOfCons(d: Data, rest: seq<Data>)
    ensures RecordsOf([d] + rest) == [RecordOf(d)] + RecordsOf(rest)
  {
  }

  lemma RecordsStep(d: Data, rest: seq<Data>)
    requires Records(FrameAll(rest)) == Ok(RecordsOf(rest))
    ensures Records(FrameAll([d] + rest)) == Ok(RecordsOf([d] + rest))
  {
    FrameAllFirst(d, rest);
    FrameReads(d, FrameAll(rest));
    RecordsOfCons(d, rest);
  }

  /** The parser returns one record per frame, in order, whatever the messages. */
  lemma {:induction false} RecordsOfFrames(ds: seq<Data>)
    ensures Records(FrameAll(ds)) == Ok(RecordsOf(ds))
  {
    if |ds| > 0 {
      RecordsOfFrames(ds[1..]);
      RecordsStep(ds[0], ds[1..]);
      assert ds == [ds[0]] + ds[1..];
    } else {
      assert RecordsOf(ds) == [];
    }
  }

  /** What a lossless parser would return. */
  function FaithfulRecord(d: Data): TsRecord {
    TsRecord(d.id.timestamp, [TsEntry(d.id.unique, d.data)])
  }

  function Faithful(ds: seq<Data>): seq<TsRecord> {
    seq(|ds|, i requires 0 <= i < |ds| => FaithfulRecord(ds[i]))
  }

  predicate Exact(d: Data) {
    Representable(d.id.timestamp) && Representable(d.id.unique)
  }

  /** The round trip is lossless exactly when every timestamp and number is a double below 2^63;
      in particular whenever they are at most 2^53. */
  lemma FrameRoundTripIff(ds: seq<Data>)
    ensures Records(FrameAll(ds)) == Ok(Faithful(ds)) <==> forall d :: d in ds ==> Exact(d)
    ensures (forall d :: d in ds ==> d.id.timestamp <= TWO53 && d.id.unique <= TWO53)
            ==> Records(FrameAll(ds)) == Ok(Faithful(ds))
  {
    RecordsOfFrames(ds);
    forall i | 0 <= i < |ds|
      ensures RecordsOf(ds)[i] == Faithful(ds)[i] <==> Exact(ds[i])
      ensures ds[i].id.timestamp <= TWO53 && ds[i].id.unique <= TWO53 ==> Exact(ds[i])
    {
      RecordExactIff(ds[i]);
    }
    if forall d :: d in ds ==> Exact(d) {
      assert RecordsOf(ds) == Faithful(ds);
    } else {
      var d :| d in ds && !Exact(d);
      var i :| 0 <= i < |ds| && ds[i] == d;
      assert RecordsOf(ds)[i] != Faithful(ds)[i];
    }
  }

  lemma RecordExactIff(d: Data)
    ensures RecordOf(d) == FaithfulRecord(d) <==> Exact(d)
    ensures d.id.timestamp <= TWO53 && d.id.unique <= TWO53 ==> Exact(d)
  {
    ToNumberExactIff(d.id.timestamp);
    ToNumberExactIff(d.id.unique);
    assert RecordOf(d).entries[0].uid == ToNumber(Signed(d.id.unique, TWO64));
    assert FaithfulRecord(d).entries[0].uid == d.id.unique;
  }

  /** A clock in nanoseconds is past 2^53, so the timestamps the server assigns itself do get lost. */
  lemma NanosecondTimestampIsRounded()
    ensures exists d: Data :: d.id.timestamp == 1_550_000_000_000_000_001
                              && Records(FrameAll([d])) == Ok([TsRecord(1_550_000_000_000_000_000, [TsEntry(0, [])])])
  {
    var d := Data(ID(1_550_000_000_000_000_001, 0), []);
    RecordsOfFrames([d]);
    var n := d.id.timestamp;
    assert Spacing(n / 128) == 2 * Spacing(n / 256) == 2 by {
      assert n / 128 / 2 == n / 256 < TWO53 <= n / 128;
    }
    assert Spacing(n / 2) == 2 * Spacing(n / 4);
    assert Spacing(n / 8) == 2 * Spacing(n / 16);
    assert Spacing(n / 32) == 2 * Spacing(n / 64);
    assert Spacing(n) == 256;
    assert RecordsOf([d]) == [RecordOf(d)];
  }

  /** The parser accepts nothing but frames: from any stream it accepts, the frames can be
      rebuilt byte for byte. */
  lemma {:induction false} AcceptedStreamIsFrames(bytes: seq<byte>) returns (ds: seq<Data>)
    requires Records(bytes).Ok?
    ensures FrameAll(ds) == bytes && Records(bytes) == Ok(RecordsOf(ds))
    decreases |bytes|
  {
    if |bytes| == 0 {
      ds := [];
      RecordsOfFrames(ds);
    } else {
      var used := ReadFrame(bytes).value.1;
      var d := FirstFrame(bytes);
      var rest := AcceptedStreamIsFrames(bytes[used..]);
      ds := [d] + rest;
      FrameAllFirst(d, rest);
      RecordsOfFrames(ds);
    }
  }

  lemma FirstFrame(bytes: seq<byte>) returns (d: Data)
    requires ReadFrame(bytes).Ok?
    ensures bytes == Frame(d.id, d.data) + bytes[ReadFrame(bytes).value.1..]
  {
    var used := ReadFrame(bytes).value.1;
    var ts, unique, size := FromBigEndian(bytes[..8]), FromBigEndian(bytes[8..16]), FromBigEndian(bytes[16..20]);
    BigEndianEncodes(bytes[..8]);
    BigEndianEncodes(bytes[8..16]);
    BigEndianEncodes(bytes[16..20]);
    WordSizes();
    d := Data(ID(ts, unique), bytes[20..used]);
    assert bytes[..20] == bytes[..8] + bytes[8..16] + bytes[16..20];
    assert bytes == bytes[..20] + bytes[20..used] + bytes[used..];
  }

  /** A stream parses without error exactly when some list of messages was written as it. */
  lemma ParsesIffFrames(bytes: seq<byte>)
    ensures Records(bytes).Ok? <==> exists ds: seq<Data> :: FrameAll(ds) == bytes
  {
    if Records(bytes).Ok? {
      var ds := AcceptedStreamIsFrames(bytes);
    }
    forall ds: seq<Data> | FrameAll(ds) == bytes
      ensures Records(bytes).Ok?
    {
      RecordsOfFrames(ds);
    }
  }
}
