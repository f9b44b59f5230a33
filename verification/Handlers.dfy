/** The request handlers: range and subsample over HTTP (src/handlers/GetRangeHandler.cpp,
    src/handlers/SubsamplingHandler.cpp) and over gRPC (src/GRPCServer.cpp). */
module Handlers {
  import opened Bytes
  import opened Keys
  import opened Options
  import opened Folders
  import opened Frames
  import opened RangeScan
  import opened UniqueRanges
  import opened Sampling
  import opened Store

  datatype Status = OK | NOT_FOUND

  /** The frames of a scan: as many bytes as were counted, parsed back by the client, and no more than a
      byte limit and the last frame. */
  lemma HttpBody(es: seq<Entry>, r: RangeRequest)
    ensures var scan := Scan(es, r, HttpFrames);
            && Total(HttpFrames, scan) == |FrameAll(Values(scan))|
            && Records(FrameAll(Values(scan))) == Ok(RecordsOf(Values(scan)))
            && (r.maxBytes > 0 && FrameAll(Values(scan)) != [] ==>
                  |scan| > 0 && |FrameAll(Values(scan))| < r.maxBytes + HEADER_SIZE + |scan[|scan| - 1].value.data|)
  {
    var scan := Scan(es, r, HttpFrames);
    TotalIsBytes(HttpFrames, scan);
    RecordsOfFrames(Values(scan));
    if r.maxBytes > 0 {
      CutBytes(r, HttpFrames, Filter(InOrder(es, r.reverse), WindowOf(es, r)));
    }
  }

  /** HTTP range: the body is the frames of the scan, the byte count is the body's length, and a
      byte limit is overshot by less than the last frame. */
  method HandleGetRange(client: DbClient, name: string, r: RangeRequest)
    returns (status: Status, body: seq<byte>, bytesSend: nat)
    requires client.Valid()
    ensures status == OK <==> name in client.db
    ensures status == NOT_FOUND ==> body == []
    ensures status == OK ==> body == FrameAll(Values(Scan(client.db[name], r, HttpFrames)))
    ensures status == OK ==> Records(body) == Ok(RecordsOf(Values(Scan(client.db[name], r, HttpFrames))))
    ensures status == OK && r.maxBytes > 0 && body != [] ==>
              var scan := Scan(client.db[name], r, HttpFrames);
              |scan| > 0 && |body| < r.maxBytes + HEADER_SIZE + |scan[|scan| - 1].value.data|
    ensures bytesSend == |body|
  {
    var cf := client.GetColumnFamily(name);
    if !cf {
      return NOT_FOUND, [], 0;
    }
    ghost var es := client.db[name];
    var sink := new Sink(HttpFrames);
    var messages;
    messages, bytesSend := Iter(client.db[name], r, sink);
    body := sink.out;
    status := OK;
    HttpBody(es, r);
  }

  lemma WithinLimits(es: seq<Entry>, r: RangeRequest, wireSize: Data -> nat, messages: seq<Data>)
    requires messages == Values(Scan(es, r, GrpcMessages(wireSize)))
    ensures r.maxMessages > 0 ==> |messages| <= r.maxMessages
    ensures r.maxBytes > 0 ==> forall m :: 0 <= m < |messages| ==> WireBytes(wireSize, messages[..m]) < r.maxBytes
  {
    var callback, scan := GrpcMessages(wireSize), Scan(es, r, GrpcMessages(wireSize));
    CutAtLimitsIff(r, callback, Filter(InOrder(es, r.reverse), WindowOf(es, r)), scan);
    forall m | 0 <= m < |messages| && r.maxBytes > 0
      ensures WireBytes(wireSize, messages[..m]) < r.maxBytes
    {
      TotalIsBytes(callback, scan[..m]);
      assert Values(scan[..m]) == messages[..m];
    }
  }

  /** gRPC range: the messages of the scan, with limits counted in protobuf bytes. */
  method GetRange(client: DbClient, name: string, r: RangeRequest, wireSize: Data -> nat)
    returns (status: Status, messages: seq<Data>)
    requires client.Valid()
    ensures status == OK <==> name in client.db
    ensures status == NOT_FOUND ==> messages == []
    ensures status == OK ==> messages == Values(Scan(client.db[name], r, GrpcMessages(wireSize)))
    ensures r.maxMessages > 0 ==> |messages| <= r.maxMessages
    ensures r.maxBytes > 0 ==> forall m :: 0 <= m < |messages| ==> WireBytes(wireSize, messages[..m]) < r.maxBytes
  {
    var cf := client.GetColumnFamily(name);
    if !cf {
      return NOT_FOUND, [];
    }
    var sink := new Sink(GrpcMessages(wireSize));
    var sent, bytes := Iter(client.db[name], r, sink);
    messages := Values(sink.sent);
    status := OK;
    WithinLimits(client.db[name], r, wireSize, messages);
  }

  method WriteFrames(messages: seq<Data>) returns (body: seq<byte>)
    ensures body == FrameAll(messages)
  {
    body := [];
    var s := 0;
    while s < |messages|
      invariant 0 <= s <= |messages|
      invariant body == FrameAll(messages[..s])
    {
      body := body + Frame(messages[s].id, messages[s].data);
      assert messages[..s + 1][..s] == messages[..s];
      s := s + 1;
    }
    assert messages[..s] == messages;
  }

  /** Which numbers a subsample draws from. */
  datatype SampleType = TotalSample | PeriodSample(from: u64, till: u64)

  function RangeOf(es: seq<Entry>, kind: SampleType): UniqueRange {
    match kind
    case TotalSample => TotalRange(es)
    case PeriodSample(from, till) => PeriodRange(es, from, till)
  }

  /** The period's number range comes in order. */
  ghost predicate Ordered(es: seq<Entry>, kind: SampleType) {
    kind.PeriodSample? ==> NoRise(es, kind.from, kind.till)
  }

  lemma RangeIsWithin(es: seq<Entry>, kind: SampleType)
    requires Stored(es) && Dense(es)
    ensures UniquesNeverDecrease(es) && InFolder(es, RangeOf(es, kind))
    ensures Ordered(es, kind) <==> RangeOf(es, kind).from <= RangeOf(es, kind).till
  {
    DenseNeverDecreases(es);
    if kind.PeriodSample? {
      PeriodOrdered(es, kind.from, kind.till);
      PeriodInOrderIff(es, kind.from, kind.till);
    }
  }

  /** Over a folder without gaps, subsamples of a kind never contain an empty message exactly when the
      folder is not empty and, over HTTP, the kind's range comes in order or, over gRPC, is within an
      `int`. */
  lemma KindNeverEmptyIff(es: seq<Entry>, kind: SampleType)
    requires Stored(es) && Dense(es) && BelowHalf(es)
    ensures var range := RangeOf(es, kind);
            && (NeverEmpty(es, range.from, HttpSpan(range)) <==> |es| > 0 && Ordered(es, kind))
            && (NeverEmpty(es, GrpcFrom(range), GrpcSpan(range)) <==> |es| > 0 && WithinInt(range))
  {
    RangeIsWithin(es, kind);
    HttpNeverEmptyIff(es, RangeOf(es, kind));
    GrpcNeverEmptyIff(es, RangeOf(es, kind));
  }

  method ChooseRange(es: seq<Entry>, kind: SampleType) returns (range: UniqueRange)
    requires Stored(es)
    ensures UniquesNeverDecrease(es) ==> range == RangeOf(es, kind)
    ensures kind.TotalSample? && es != [] ==> range.from == es[0].key.unique && range.till == es[|es| - 1].key.unique
    ensures kind.PeriodSample? && UniquesNeverDecrease(es) ==> EndsAt(es, kind.from, range.from) && EndsAt(es, kind.till, range.till)
  {
    match kind
    case TotalSample =>
      range := GetUniqueRange(es);
    case PeriodSample(from, till) =>
      range := GetUniqueRangeForTS(es, from, till);
      if UniquesNeverDecrease(es) {
        SearchableProbe(es, ID(from, 0));
        SearchableProbe(es, ID(till, 0));
      }
  }

  /** What any folder guarantees about a subsample: its size, and that each message is stored or
      empty. */
  ghost predicate Sampled(es: seq<Entry>, size: nat, messages: seq<Data>) {
    |messages| == size && forall k :: 0 <= k < |messages| ==> messages[k] == PLACEHOLDER || IsStored(es, messages[k])
  }

  lemma ServedIsSampled(es: seq<Entry>, from: int, span: int, rand: nat -> nat, messages: seq<Data>)
    requires ServesAll(es, from, span, rand, 0, messages)
    ensures Sampled(es, |messages|, messages)
  {
    forall k | 0 <= k < |messages|
      ensures messages[k] == PLACEHOLDER || IsStored(es, messages[k])
    {
      assert Serves(es, Draw(from, span, rand(0 + k)), messages[k]);
    }
  }

  /** One subsample over a folder whose numbers never decrease: the answers to the draws, none of
      them empty if subsamples over this start and span never are. */
  lemma ServedOnce(es: seq<Entry>, from: int, span: int, rand: nat -> nat, messages: seq<Data>)
    requires Stored(es) && UniquesNeverDecrease(es) && ServesAll(es, from, span, rand, 0, messages)
    ensures messages == Answers(es, from, span, rand, |messages|)
    ensures NeverEmpty(es, from, span) && IsRand(rand) ==> AllStored(es, messages)
  {
    ServedIsAnswers(es, from, span, rand, messages);
  }

  /** d is the message of the earliest entry carrying u; an empty one if no entry does. */
  ghost predicate SentFor(es: seq<Entry>, u: int, d: Data) {
    || (exists k :: 0 <= k < |es| && es[k].value == d && es[k].key.unique == u
                    && forall m :: 0 <= m < k ==> es[m].key.unique != u)
    || (d == Data(ID(0, 0), []) && forall k :: 0 <= k < |es| ==> es[k].key.unique != u)
  }

  lemma AnswerIsSent(es: seq<Entry>, u: u64)
    requires Stored(es)
    ensures SentFor(es, u, Answer(es, u))
  {
    WildcardLookup(es, u);
  }

  /** A draw without an entry goes out as twenty zero bytes. */
  lemma UnansweredFrame(es: seq<Entry>, u: u64)
    requires Stored(es) && forall k :: 0 <= k < |es| ==> es[k].key.unique != u
    ensures Frame(Answer(es, u).id, Answer(es, u).data) == seq(20, i requires 0 <= i < 20 => 0)
  {
    var frame := Frame(Answer(es, u).id, Answer(es, u).data);
    forall i | 0 <= i < 20
      ensures frame[i] == 0
    {
      FrameLayout(ID(0, 0), [], if i < 8 then i else if i < 16 then i - 8 else i - 16);
      assert 0 / Pow256(if i < 8 then 7 - i else if i < 16 then 15 - i else 19 - i) == 0;
    }
  }

  /** Message j answers draw j. */
  ghost predicate AnswersDraws(es: seq<Entry>, from: int, span: int, rand: nat -> nat, messages: seq<Data>) {
    forall j :: 0 <= j < |messages| ==> SentFor(es, Draw(from, span, rand(j)), messages[j])
  }

  /** In integers. */
  lemma AnswersDrawsIff(es: seq<Entry>, from: int, span: int, rand: nat -> nat, messages: seq<Data>)
    ensures AnswersDraws(es, from, span, rand, messages)
       <==> forall j :: 0 <= j < |messages| ==> SentFor(es, (from + (span * rand(j)) / RAND_MAX) % TWO64, messages[j])
  {
    forall j | 0 <= j < |messages|
      ensures Draw(from, span, rand(j)) == (from + (span * rand(j)) / RAND_MAX) % TWO64
    {
      DrawAsInteger(from, span, rand(j));
    }
  }

  lemma AnswersAreSent(es: seq<Entry>, from: int, span: int, rand: nat -> nat, messages: seq<Data>)
    requires Stored(es) && UniquesNeverDecrease(es) && ServesAll(es, from, span, rand, 0, messages)
    ensures AnswersDraws(es, from, span, rand, messages)
  {
    ServedIsAnswers(es, from, span, rand, messages);
    forall j | 0 <= j < |messages|
      ensures SentFor(es, Draw(from, span, rand(j)), messages[j])
    {
      AnswerIsSent(es, Draw(from, span, rand(j)));
    }
  }

  /** i is n as a 32-bit `int`. */
  predicate IsIntOf(i: int, n: int) {
    -TWO31 <= i < TWO31 && (i - n) % TWO32 == 0
  }

  /** The service's `int` start and difference are the numbers' own, modulo 2^32. */
  lemma GrpcInts(range: UniqueRange)
    ensures IsIntOf(GrpcFrom(range), range.from) && IsIntOf(GrpcSpan(range), range.till - range.from)
  {
    AsIntIsInt(range.from);
    AsIntIsInt(range.till);
    var f, t := (AsInt(range.from) - range.from) / TWO32, (AsInt(range.till) - range.till) / TWO32;
    var w := if AsInt(range.till) - AsInt(range.from) < -TWO31 then 1
             else if AsInt(range.till) - AsInt(range.from) < TWO31 then 0 else -1;
    Multiple(GrpcSpan(range) - (range.till - range.from), t - f + w);
  }

  lemma AsIntIsInt(n: u64)
    ensures IsIntOf(AsInt(n), n)
  {
    Multiple(AsInt(n) - n, (if n % TWO32 < TWO31 then 0 else -1) - n / TWO32);
  }

  lemma Multiple(x: int, k: int)
    requires x == k * TWO32
    ensures x % TWO32 == 0
  {
  }

  /** Which entries a kind's range lets through. */
  predicate Sendable(es: seq<Entry>, kind: SampleType, k: nat)
    requires k < |es|
  {
    FirstHolder(es, k) && (kind.PeriodSample? ==> Reached(es, kind.from, kind.till, k))
  }

  lemma HttpReturnsIff(es: seq<Entry>, kind: SampleType, k: nat)
    requires Stored(es) && UniquesNeverDecrease(es) && k < |es| && Ordered(es, kind)
    requires RangeOf(es, kind).till - RangeOf(es, kind).from <= RAND_MAX
    ensures ComesUp(es, RangeOf(es, kind).from, HttpSpan(RangeOf(es, kind)), k) <==> Sendable(es, kind, k)
    ensures RangeOf(es, kind).from <= RangeOf(es, kind).till
  {
    match kind
    case TotalSample =>
      SampleableIff(es, TotalRange(es).from, HttpSpan(TotalRange(es)), k);
      FirstAndLast(es, k);
      HttpDraws(TotalRange(es), es[k].key.unique);
    case PeriodSample(from, till) =>
      PeriodInOrderIff(es, from, till);
      PeriodSampleableIff(es, from, till, k);
  }

  lemma FirstAndLast(es: seq<Entry>, k: nat)
    requires UniquesNeverDecrease(es) && k < |es|
    ensures es[0].key.unique <= es[k].key.unique <= es[|es| - 1].key.unique
  {
  }

  /** Which entries the services can send: of a total subsample the first holder of every number; of a
      period's the first holders between its ends. For ranges in order up to RAND_MAX long, over gRPC
      with numbers below 2^31. */
  lemma KindReturnsIff(es: seq<Entry>, kind: SampleType, k: nat)
    requires Stored(es) && UniquesNeverDecrease(es) && k < |es| && Ordered(es, kind)
    requires RangeOf(es, kind).till - RangeOf(es, kind).from <= RAND_MAX
    ensures var range := RangeOf(es, kind);
            && (ComesUp(es, range.from, HttpSpan(range), k) <==> Sendable(es, kind, k))
            && (range.till < TWO31 ==> (ComesUp(es, GrpcFrom(range), GrpcSpan(range), k) <==> Sendable(es, kind, k)))
  {
    HttpReturnsIff(es, kind, k);
    if RangeOf(es, kind).till < TWO31 {
      SameSpan(RangeOf(es, kind));
    }
  }

  /** For every entry a kind lets through, some value of rand() makes both services send it and nothing
      else in answer to that draw. */
  lemma SendableIsSent(es: seq<Entry>, kind: SampleType, k: nat) returns (r: nat)
    requires Stored(es) && UniquesNeverDecrease(es) && k < |es| && Ordered(es, kind) && Sendable(es, kind, k)
    requires RangeOf(es, kind).till - RangeOf(es, kind).from <= RAND_MAX
    ensures var range := RangeOf(es, kind);
            && r <= RAND_MAX
            && (forall d :: SentFor(es, Draw(range.from, HttpSpan(range), r), d) <==> d == es[k].value)
            && (range.till < TWO31 ==>
                  forall d :: SentFor(es, Draw(GrpcFrom(range), GrpcSpan(range), r), d) <==> d == es[k].value)
  {
    var range := RangeOf(es, kind);
    HttpReturnsIff(es, kind, k);
    r :| 0 <= r <= RAND_MAX && Answer(es, Draw(range.from, HttpSpan(range), r)) == es[k].value;
    var u := Draw(range.from, HttpSpan(range), r);
    AnswerIsSent(es, u);
    SentOnce(es, u, es[k].value);
    if range.till < TWO31 {
      SameSpan(range);
    }
  }

  /** What is sent for a number is fixed. */
  lemma SentOnce(es: seq<Entry>, u: int, d: Data)
    requires SentFor(es, u, d)
    ensures forall d' :: SentFor(es, u, d') <==> d' == d
  {
  }

  /** The ends of a total subsample's range enclose exactly the numbers some entry carries. */
  lemma TotalKindIsCarried(es: seq<Entry>, u: int)
    requires Dense(es) && |es| > 0
    ensures RangeOf(es, TotalSample).from <= u <= RangeOf(es, TotalSample).till
       <==> exists k :: 0 <= k < |es| && es[k].key.unique == u
  {
    TotalRangeIsCarried(es);
    assert Carries(es, u) <==> exists k :: 0 <= k < |es| && es[k].key.unique == u;
  }

  /** d is an entry that a period subsample can return, as `PeriodSampleableIff` lists them. */
  ghost predicate Returned(es: seq<Entry>, from: u64, till: u64, d: Data) {
    exists k :: 0 <= k < |es| && es[k].value == d
                && ComesUp(es, PeriodRange(es, from, till).from, HttpSpan(PeriodRange(es, from, till)), k)
  }

  lemma PeriodReturns(es: seq<Entry>, kind: SampleType, range: UniqueRange, rand: nat -> nat, messages: seq<Data>)
    requires Stored(es) && (UniquesNeverDecrease(es) ==> range == RangeOf(es, kind))
    requires ServesAll(es, range.from, HttpSpan(range), rand, 0, messages)
    ensures kind.PeriodSample? && UniquesNeverDecrease(es) && IsRand(rand) ==>
              forall j :: 0 <= j < |messages| ==>
                messages[j] == Data(ID(0, 0), []) || Returned(es, kind.from, kind.till, messages[j])
  {
    if kind.PeriodSample? && UniquesNeverDecrease(es) && IsRand(rand) {
      ServedIsAnswers(es, range.from, HttpSpan(range), rand, messages);
      forall j | 0 <= j < |messages|
        ensures messages[j] == PLACEHOLDER || Returned(es, kind.from, kind.till, messages[j])
      {
        assert messages[j] == Answer(es, Draw(range.from, HttpSpan(range), rand(j)));
        if messages[j] != PLACEHOLDER {
          var e :| e in es && e.value == messages[j];
        }
      }
    }
  }

  /** Over a dense folder with something in it no message is empty: over HTTP if the range comes in order,
      over gRPC if it is within an `int`. */
  lemma ServesStored(es: seq<Entry>, kind: SampleType, range: UniqueRange, from: int, span: int, rand: nat -> nat,
                     messages: seq<Data>)
    requires Stored(es) && (UniquesNeverDecrease(es) ==> range == RangeOf(es, kind))
    requires ServesAll(es, from, span, rand, 0, messages)
    requires (from == range.from && span == HttpSpan(range) && (kind.PeriodSample? ==> kind.from <= kind.till))
             || (from == GrpcFrom(range) && span == GrpcSpan(range) && WithinInt(range))
    ensures Dense(es) && es != [] && BelowHalf(es) && IsRand(rand) ==> AllStored(es, messages)
  {
    if Dense(es) && BelowHalf(es) {
      KindNeverEmptyIff(es, kind);
      DenseNeverDecreases(es);
      ServedOnce(es, from, span, rand, messages);
      if kind.PeriodSample? {
        PeriodInOrderIff(es, kind.from, kind.till);
      }
    }
  }

  /** The messages of an HTTP subsample of either kind. */
  method HttpMessages(es: seq<Entry>, kind: SampleType, amount: u32, batchSize: u32, rand: nat -> nat)
    returns (messages: seq<Data>, ghost range: UniqueRange)
    requires Stored(es)
    ensures |messages| == SampleSize(amount, batchSize)
    ensures forall j :: 0 <= j < |messages| ==> messages[j] == Data(ID(0, 0), []) || IsStored(es, messages[j])
    ensures kind.TotalSample? && es != [] ==> range.from == es[0].key.unique && range.till == es[|es| - 1].key.unique
    ensures kind.PeriodSample? && UniquesNeverDecrease(es) ==> EndsAt(es, kind.from, range.from) && EndsAt(es, kind.till, range.till)
    ensures UniquesNeverDecrease(es) ==> AnswersDraws(es, range.from, HttpSpan(range), rand, messages)
    ensures kind.PeriodSample? && UniquesNeverDecrease(es) && IsRand(rand) ==>
              forall j :: 0 <= j < |messages| ==>
                messages[j] == Data(ID(0, 0), []) || Returned(es, kind.from, kind.till, messages[j])
    ensures Dense(es) && es != [] && BelowHalf(es) && IsRand(rand) && (kind.PeriodSample? ==> kind.from <= kind.till) ==>
              forall j :: 0 <= j < |messages| ==> IsStored(es, messages[j])
  {
    var chosen := ChooseRange(es, kind);
    range := chosen;
    messages := SampleBatches(es, chosen.from, HttpSpan(chosen), amount, batchSize, rand);
    ServedIsSampled(es, chosen.from, HttpSpan(chosen), rand, messages);
    if UniquesNeverDecrease(es) {
      AnswersAreSent(es, chosen.from, HttpSpan(chosen), rand, messages);
    }
    if kind.PeriodSample? ==> kind.from <= kind.till {
      ServesStored(es, kind, chosen, chosen.from, HttpSpan(chosen), rand, messages);
    }
    PeriodReturns(es, kind, chosen, rand, messages);
  }

  /** HTTP subsample. For every folder, the size and kind of its messages. Over a folder whose numbers
      never decrease, message j is the earliest one with the number of draw j over a range: from the
      first to the last number if no bounds are given, else between the numbers of the last entries up to
      each bound. */
  method HandleSubsample(client: DbClient, name: string, from: u64, till: u64, amount: u32, batchSize: u32,
                         rand: nat -> nat)
    returns (status: Status, body: seq<byte>, messages: seq<Data>, ghost range: UniqueRange)
    requires client.Valid()
    ensures status == OK <==> name in client.db
    ensures body == FrameAll(messages)
    ensures status == NOT_FOUND ==> messages == []
    ensures status == OK ==> |messages| == SampleSize(amount, batchSize)
    ensures status == OK ==> forall j :: 0 <= j < |messages| ==>
              messages[j] == Data(ID(0, 0), []) || IsStored(client.db[name], messages[j])
    ensures status == OK && from == 0 && till == 0 && client.db[name] != [] ==>
              range.from == client.db[name][0].key.unique && range.till == client.db[name][|client.db[name]| - 1].key.unique
    ensures status == OK && (from != 0 || till != 0) && UniquesNeverDecrease(client.db[name]) ==>
              EndsAt(client.db[name], from, range.from) && EndsAt(client.db[name], till, range.till)
    ensures status == OK && UniquesNeverDecrease(client.db[name]) ==>
              AnswersDraws(client.db[name], range.from, HttpSpan(range), rand, messages)
    ensures status == OK && (from != 0 || till != 0) && UniquesNeverDecrease(client.db[name]) && IsRand(rand) ==>
              forall j :: 0 <= j < |messages| ==> messages[j] == Data(ID(0, 0), []) || Returned(client.db[name], from, till, messages[j])
    ensures status == OK && Dense(client.db[name]) && client.db[name] != [] && BelowHalf(client.db[name])
            && from <= till && IsRand(rand) ==>
              forall j :: 0 <= j < |messages| ==> IsStored(client.db[name], messages[j])
  {
    range := UniqueRange(0, 0);
    var cf := client.GetColumnFamily(name);
    if !cf {
      return NOT_FOUND, [], [], range;
    }
    if from == 0 && till == 0 {
      messages, range := HttpMessages(client.db[name], TotalSample, amount, batchSize, rand);
    } else {
      messages, range := HttpMessages(client.db[name], PeriodSample(from, till), amount, batchSize, rand);
    }
    body := WriteFrames(messages);
    status := OK;
  }

  /** gRPC subsample: the same in signed 32-bit arithmetic, with a total subsample asked for as such. */
  method GetSubsample(client: DbClient, name: string, kind: SampleType, amount: u32, batchSize: u32, rand: nat -> nat)
    returns (status: Status, messages: seq<Data>, ghost range: UniqueRange)
    requires client.Valid()
    ensures status == OK <==> name in client.db
    ensures status == NOT_FOUND ==> messages == []
    ensures status == OK ==> |messages| == SampleSize(amount, batchSize)
    ensures status == OK ==> forall j :: 0 <= j < |messages| ==>
              messages[j] == Data(ID(0, 0), []) || IsStored(client.db[name], messages[j])
    ensures status == OK && kind.TotalSample? && client.db[name] != [] ==>
              range.from == client.db[name][0].key.unique && range.till == client.db[name][|client.db[name]| - 1].key.unique
    ensures status == OK && kind.PeriodSample? && UniquesNeverDecrease(client.db[name]) ==>
              EndsAt(client.db[name], kind.from, range.from) && EndsAt(client.db[name], kind.till, range.till)
    ensures status == OK && UniquesNeverDecrease(client.db[name]) ==>
              AnswersDraws(client.db[name], GrpcFrom(range), GrpcSpan(range), rand, messages)
    ensures status == OK && Dense(client.db[name]) && client.db[name] != [] && BelowHalf(client.db[name])
            && WithinInt(range) && IsRand(rand) ==>
              forall j :: 0 <= j < |messages| ==> IsStored(client.db[name], messages[j])
  {
    range := UniqueRange(0, 0);
    var cf := client.GetColumnFamily(name);
    if !cf {
      return NOT_FOUND, [], range;
    }
    var es := client.db[name];
    var chosen := ChooseRange(es, kind);
    range := chosen;
    messages := SampleBatches(es, GrpcFrom(chosen), GrpcSpan(chosen), amount, batchSize, rand);
    ServedIsSampled(es, GrpcFrom(chosen), GrpcSpan(chosen), rand, messages);
    if UniquesNeverDecrease(es) {
      AnswersAreSent(es, GrpcFrom(chosen), GrpcSpan(chosen), rand, messages);
    }
    if WithinInt(chosen) {
      ServesStored(es, kind, chosen, GrpcFrom(chosen), GrpcSpan(chosen), rand, messages);
    }
    status := OK;
  }
}
