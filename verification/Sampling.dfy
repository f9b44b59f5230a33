/** Subsampling: the draw, the probe buffer and the batch loop shared by the HTTP handler
    (src/handlers/SubsamplingHandler.cpp) and the gRPC service (src/GRPCServer.cpp). */
module Sampling {
  import opened Bytes
  import opened Keys
  import opened Options
  import opened Folders
  import opened UniqueRanges

  const RAND_MAX := 0x7fff_ffff

  // ----- the draw -----

  /** `span * (r / (double)RAND_MAX) + from`, converted to an unsigned 64-bit number; exact
      rationals stand for the doubles. */
  function Draw(from: int, span: int, r: nat): u64 {
    (span as real * (r as real / RAND_MAX as real) + from as real).Floor % TWO64
  }

  /** HTTP subtracts unsigned 64-bit numbers. */
  function HttpSpan(range: UniqueRange): int {
    (range.till - range.from) % TWO64
  }

  lemma SpanInOrder(range: UniqueRange)
    requires range.from <= range.till
    ensures HttpSpan(range) == range.till - range.from
  {
  }

  lemma SpanWraps(range: UniqueRange)
    requires range.till < range.from
    ensures HttpSpan(range) == TWO64 + range.till - range.from
  {
  }

  /** gRPC first assigns both ends to `int` variables. */
  function AsInt(n: u64): int {
    Signed(n % TWO32, TWO32)
  }

  function GrpcFrom(range: UniqueRange): int {
    AsInt(range.from)
  }

  /** The difference of two `int`s wraps around at most once. */
  function WrapInt(d: int): int {
    if d < -TWO31 then d + TWO32 else if d < TWO31 then d else d - TWO32
  }

  function GrpcSpan(range: UniqueRange): int {
    WrapInt(AsInt(range.till) - AsInt(range.from))
  }

  /** Modulo 2^32, the start is below 2^31 and the end less than 2^31 past the start; the end itself
      may be negative as an `int`. */
  predicate WithinInt(range: UniqueRange) {
    range.from % TWO32 < TWO31 && range.till % TWO32 < range.from % TWO32 + TWO31
  }

  /** Inside, `int` arithmetic runs from one end to the other modulo 2^32; outside, the first or the
      last number of the draw is negative. */
  lemma IntSpan(range: UniqueRange)
    ensures WithinInt(range) ==>
              GrpcFrom(range) == range.from % TWO32 && GrpcSpan(range) == range.till % TWO32 - range.from % TWO32
    ensures !WithinInt(range) ==> GrpcFrom(range) < 0 || GrpcFrom(range) + GrpcSpan(range) < 0
  {
  }

  lemma IntsFit(range: UniqueRange)
    ensures -TWO31 <= GrpcFrom(range) < TWO31 && -TWO31 <= GrpcSpan(range) < TWO31
  {
  }

  /** In integers: the draw divides the range evenly over 0..RAND_MAX. */
  lemma DrawAsInteger(from: int, span: int, r: nat)
    ensures Draw(from, span, r) == (from + (span * r) / RAND_MAX) % TWO64
  {
    var q := (span * r) / RAND_MAX;
    var x := span as real * (r as real / RAND_MAX as real) + from as real;
    assert q * RAND_MAX <= span * r < (q + 1) * RAND_MAX;
    assert span as real * (r as real / RAND_MAX as real) == (span * r) as real / RAND_MAX as real by {
      assert (span * r) as real == span as real * r as real;
    }
    assert q as real <= (span * r) as real / RAND_MAX as real < (q + 1) as real;
    assert (from + q) as real <= x < (from + q + 1) as real;
    assert x.Floor == from + q;
  }

  lemma ScaledBounds(span: int, r: nat)
    requires r <= RAND_MAX
    ensures span >= 0 ==> 0 <= (span * r) / RAND_MAX <= span
    ensures span <= 0 ==> span <= (span * r) / RAND_MAX <= 0
    ensures r == RAND_MAX ==> (span * r) / RAND_MAX == span
    ensures span > 0 && r < RAND_MAX ==> (span * r) / RAND_MAX < span
  {
  }

  /** Every draw lies between the two ends, whichever is larger; the far end only comes up for
      r = RAND_MAX. */
  lemma DrawBounds(from: u64, till: u64, r: nat)
    requires r <= RAND_MAX
    ensures from <= till ==> from <= Draw(from, till - from, r) <= till
    ensures till <= from ==> till <= Draw(from, till - from, r) <= from
    ensures from < till ==> (Draw(from, till - from, r) == till <==> r == RAND_MAX)
  {
    ScaledBounds(till - from, r);
    DrawAsInteger(from, till - from, r);
  }

  lemma DrawEnds(from: int, span: int)
    ensures Draw(from, span, 0) == from % TWO64
    ensures Draw(from, span, RAND_MAX) == (from + span) % TWO64
  {
    DrawAsInteger(from, span, 0);
    DrawAsInteger(from, span, RAND_MAX);
    assert (span * RAND_MAX) / RAND_MAX == span;
  }

  /** n lies between the ends of the range. */
  predicate Between(range: UniqueRange, n: int) {
    range.from <= n <= range.till || range.till <= n <= range.from
  }

  /** The draw over this start and span lies between the ends of the range. */
  predicate DrawnInside(range: UniqueRange, from: int, span: int, r: nat) {
    Between(range, Draw(from, span, r))
  }

  /** Half of an unsigned span that wrapped around lands past 2^63. */
  lemma WrappedDraw(from: u64, till: u64) returns (r: nat)
    requires till < from < TWO63
    ensures r <= RAND_MAX && Draw(from, TWO64 + till - from, r) >= TWO63
  {
    var span: int := TWO64 + till - from;
    r := if from + till < TWO63 then 0x4000_0000 else 0x3fff_ffff;
    var q := (span * r) / RAND_MAX;
    assert TWO63 <= from + q < TWO64;
    DrawAsInteger(from, span, r);
  }

  /** Every HTTP draw lies between the two ends exactly when they come in order; out of order, the
      unsigned span wraps around. Numbers are assumed below 2^63, half the counter's cycle. */
  lemma HttpDrawIff(range: UniqueRange)
    requires range.from < TWO63 && range.till < TWO63
    ensures range.from <= range.till <==> forall r :: 0 <= r <= RAND_MAX ==> DrawnInside(range, range.from, HttpSpan(range), r)
  {
    if range.from <= range.till {
      SpanInOrder(range);
      forall r | 0 <= r <= RAND_MAX
        ensures DrawnInside(range, range.from, HttpSpan(range), r)
      {
        DrawBounds(range.from, range.till, r);
      }
    } else {
      SpanWraps(range);
      var r := WrappedDraw(range.from, range.till);
      assert !DrawnInside(range, range.from, HttpSpan(range), r);
    }
  }

  /** A number that is negative as an `int` is drawn as one past 2^63. */
  lemma NegativeEnd(range: UniqueRange) returns (r: nat)
    requires !WithinInt(range)
    ensures r <= RAND_MAX && Draw(GrpcFrom(range), GrpcSpan(range), r) >= TWO63
  {
    IntSpan(range);
    DrawEnds(GrpcFrom(range), GrpcSpan(range));
    r := if GrpcFrom(range) < 0 then 0 else RAND_MAX;
  }

  /** Draws from f to t stay inside exactly when f and t do. */
  lemma EndsInside(range: UniqueRange, f: u64, t: u64, span: int)
    requires span == t - f
    ensures Between(range, f) && Between(range, t) <==> forall r :: 0 <= r <= RAND_MAX ==> DrawnInside(range, f, span, r)
  {
    DrawEnds(f, span);
    if Between(range, f) && Between(range, t) {
      forall r | 0 <= r <= RAND_MAX
        ensures DrawnInside(range, f, span, r)
      {
        DrawBounds(f, t, r);
      }
    } else {
      assert !DrawnInside(range, f, span, 0) || !DrawnInside(range, f, span, RAND_MAX);
    }
  }

  /** Every gRPC draw does, in whatever order they come, exactly when the range is within an `int` and
      both ends modulo 2^32 do. */
  lemma GrpcDrawIff(range: UniqueRange)
    requires range.from < TWO63 && range.till < TWO63
    ensures WithinInt(range) && Between(range, range.from % TWO32) && Between(range, range.till % TWO32)
       <==> forall r :: 0 <= r <= RAND_MAX ==> DrawnInside(range, GrpcFrom(range), GrpcSpan(range), r)
  {
    if WithinInt(range) {
      IntSpan(range);
      EndsInside(range, range.from % TWO32, range.till % TWO32, GrpcSpan(range));
    } else {
      var r := NegativeEnd(range);
      assert !DrawnInside(range, GrpcFrom(range), GrpcSpan(range), r);
    }
  }

  /** The two starts and spans draw the same for every r. */
  ghost predicate DrawAlike(from: int, span: int, from': int, span': int) {
    forall r :: 0 <= r <= RAND_MAX ==> Draw(from, span, r) == Draw(from', span', r)
  }

  lemma AlikeEnds(from: int, span: int, from': int, span': int)
    requires DrawAlike(from, span, from', span')
    ensures from % TWO64 == from' % TWO64 && (from + span) % TWO64 == (from' + span') % TWO64
  {
    DrawEnds(from, span);
    DrawEnds(from', span');
    assert Draw(from, span, 0) == Draw(from', span', 0);
    assert Draw(from, span, RAND_MAX) == Draw(from', span', RAND_MAX);
  }

  /** Both services draw the same numbers exactly when the range comes in order, starts below 2^31 and
      is shorter than 2^31. */
  lemma ServicesAgreeIff(range: UniqueRange)
    requires range.from < TWO63 && range.till < TWO63
    ensures range.from < TWO31 && range.from <= range.till < range.from + TWO31
       <==> DrawAlike(range.from, HttpSpan(range), GrpcFrom(range), GrpcSpan(range))
  {
    if range.from < TWO31 && range.from <= range.till < range.from + TWO31 {
      SameSpan(range);
    }
    if DrawAlike(range.from, HttpSpan(range), GrpcFrom(range), GrpcSpan(range)) {
      IntsFit(range);
      AlikeIsShort(range, GrpcFrom(range), GrpcSpan(range));
    }
  }

  lemma SameSpan(range: UniqueRange)
    requires range.from < TWO31 && range.from <= range.till < range.from + TWO31
    ensures GrpcFrom(range) == range.from && GrpcSpan(range) == HttpSpan(range)
  {
    IntSpan(range);
    SpanInOrder(range);
    assert range.from % TWO32 == range.from && range.till % TWO32 == range.till;
  }

  lemma NearestResidue(x: int, n: u64)
    requires -TWO32 <= x < TWO32 && n < TWO63 && x % TWO64 == n
    ensures x == n
  {
  }

  lemma HttpLast(range: UniqueRange)
    ensures (range.from + HttpSpan(range)) % TWO64 == range.till
  {
    if range.from <= range.till {
      SpanInOrder(range);
    } else {
      SpanWraps(range);
    }
  }

  /** Draws that agree with HTTP's run between the same two ends. */
  lemma AlikeEndsMeet(range: UniqueRange, from: int, span: int)
    requires range.from < TWO63 && range.till < TWO63 && DrawAlike(range.from, HttpSpan(range), from, span)
    requires -TWO31 <= from < TWO31 && -TWO31 <= span < TWO31
    ensures from == range.from && from + span == range.till
  {
    AlikeEnds(range.from, HttpSpan(range), from, span);
    HttpLast(range);
    NearestResidue(from, range.from);
    NearestResidue(from + span, range.till);
  }

  /** Draws that agree with HTTP's, over a start and span that fit an `int`, need a range in order. */
  lemma AlikeIsShort(range: UniqueRange, from: int, span: int)
    requires range.from < TWO63 && range.till < TWO63 && DrawAlike(range.from, HttpSpan(range), from, span)
    requires -TWO31 <= from < TWO31 && -TWO31 <= span < TWO31
    ensures range.from < TWO31 && range.from <= range.till < range.from + TWO31
  {
    AlikeEndsMeet(range, from, span);
    if range.till < range.from {
      SpanWraps(range);
      var r := WrappedDraw(range.from, range.till);
      DrawBounds(range.from, range.till, r);
      assert false;
    }
  }

  lemma CeilingDivision(p: nat, span: nat) returns (r: nat)
    requires span > 0
    ensures p <= r * span < p + span
  {
    var n := p + span - 1;
    r := n / span;
    assert n == r * span + n % span;
  }

  lemma CancelFactor(r: nat, m: nat, span: nat)
    requires r * span < (m + 1) * span
    ensures r <= m
  {
  }

  lemma QuotientBetween(x: int, q: int)
    requires q * RAND_MAX <= x < q * RAND_MAX + RAND_MAX
    ensures x / RAND_MAX == q
  {
  }

  /** Some r lands q past the start: whenever q is within a span up to RAND_MAX long; in a longer span if
      the first multiple of the span at or past q * RAND_MAX is less than RAND_MAX away. */
  predicate Visits(span: nat, q: nat) {
    q <= span && (span > 0 ==> (0 - q * RAND_MAX) % span < RAND_MAX)
  }

  lemma ShortSpanVisits(span: nat, q: nat)
    requires span <= RAND_MAX
    ensures Visits(span, q) <==> q <= span
  {
  }

  lemma Remainder(x: int, k: int, d: nat, span: nat)
    requires x == k * span + d && d < span
    ensures x % span == d
  {
    var j := x / span - k;
    assert j * span == d - x % span;
    assert j == 0;
  }

  lemma VisitLands(span: nat, q: nat) returns (r: nat)
    requires Visits(span, q)
    ensures r <= RAND_MAX && (span * r) / RAND_MAX == q
  {
    r := 0;
    if span > 0 {
      var p: nat := q * RAND_MAX;
      r := CeilingDivision(p, span);
      Remainder(0 - p, 0 - r, r * span - p, span);
      CancelFactor(r, RAND_MAX, span);
      QuotientBetween(span * r, q);
    }
  }

  lemma LandingVisits(span: nat, r: nat)
    requires r <= RAND_MAX
    ensures Visits(span, (span * r) / RAND_MAX)
  {
    ScaledBounds(span, r);
    var q := (span * r) / RAND_MAX;
    var d: nat := span * r - q * RAND_MAX;
    if d < span {
      Remainder(0 - q * RAND_MAX, 0 - r, d, span);
    }
  }

  lemma DrawReachesUp(from: u64, span: nat, u: u64) returns (r: nat)
    requires from <= u <= from + span && 0 < span <= RAND_MAX
    ensures r <= RAND_MAX && Draw(from, span, r) == u
  {
    ShortSpanVisits(span, u - from);
    r := VisitLands(span, u - from);
    DrawAsInteger(from, span, r);
  }

  lemma DrawReachesDown(from: u64, span: int, u: u64) returns (r: nat)
    requires from + span <= u <= from && -RAND_MAX <= span < 0
    ensures r <= RAND_MAX && Draw(from, span, r) == u
  {
    var depth: nat := 0 - span;
    var p: nat := (from - u) * RAND_MAX;
    r := p / depth;
    assert p == r * depth + p % depth;
    CancelFactor(r, RAND_MAX, depth);
    assert span * r == 0 - r * depth;
    QuotientBetween(span * r, u - from);
    DrawAsInteger(from, span, r);
  }

  /** Every number between two ends no further than RAND_MAX apart, in either order, can be drawn. */
  lemma DrawReaches(from: u64, till: u64, u: u64) returns (r: nat)
    requires from <= u <= till || till <= u <= from
    requires -RAND_MAX <= till - from <= RAND_MAX
    ensures r <= RAND_MAX && Draw(from, till - from, r) == u
  {
    if from < till {
      r := DrawReachesUp(from, till - from, u);
    } else if till < from {
      r := DrawReachesDown(from, till - from, u);
    } else {
      r := 0;
      DrawBounds(from, till, 0);
    }
  }

  // ----- what a draw returns -----

  /** An answer that could not be found is sent as an empty message. */
  const PLACEHOLDER := Data(ID(0, 0), [])

  function Answer(es: seq<Entry>, u: u64): Data {
    match Lookup(es, ID(0, u))
    case None => PLACEHOLDER
    case Some(e) => e.value
  }

  ghost predicate IsStored(es: seq<Entry>, d: Data) {
    exists k :: 0 <= k < |es| && es[k].value == d
  }

  /** An answer is a stored message exactly when some entry carries the number. */
  lemma AnswerIff(es: seq<Entry>, u: u64)
    requires Stored(es)
    ensures IsStored(es, Answer(es, u)) <==> Carries(es, u)
    ensures Carries(es, u) ==> Answer(es, u).id.unique == u
  {
  }

  /** Whatever rand() returns, the draw over this start and span finds a stored message. */
  ghost predicate AlwaysFinds(es: seq<Entry>, from: int, span: int) {
    forall r :: 0 <= r <= RAND_MAX ==> Finds(es, from, span, r)
  }

  ghost predicate Finds(es: seq<Entry>, from: int, span: int, r: nat) {
    IsStored(es, Answer(es, Draw(from, span, r)))
  }

  /** A total subsample never sends a placeholder, whatever is drawn, exactly when there is no gap
      among the numbers the draw can land on: for up to RAND_MAX numbers, all of them. */
  lemma TotalSampleCleanIff(es: seq<Entry>)
    requires Stored(es)
    ensures var range := TotalRange(es);
            AlwaysFinds(es, range.from, HttpSpan(range))
            <==> forall u: u64 :: Visits(HttpSpan(range), (u - range.from) % TWO64) ==> Carries(es, u)
    ensures var range := TotalRange(es);
            range.from <= range.till <= range.from + RAND_MAX ==>
              (AlwaysFinds(es, range.from, HttpSpan(range))
               <==> forall u :: range.from <= u <= range.till ==> Carries(es, u))
  {
    var range := TotalRange(es);
    var span := HttpSpan(range);
    forall u: u64
      ensures Visits(span, (u - range.from) % TWO64) <==> Draws(range.from, span, u)
      ensures range.from <= range.till <= range.from + RAND_MAX ==>
                (Draws(range.from, span, u) <==> range.from <= u <= range.till)
    {
      HttpDraws(range, u);
    }
    DrawsCleanIff(es, range.from, span);
  }

  /** Every draw finds a stored message exactly when every number drawn is carried. */
  lemma DrawsCleanIff(es: seq<Entry>, from: int, span: int)
    requires Stored(es)
    ensures AlwaysFinds(es, from, span) <==> forall u: u64 :: Draws(from, span, u) ==> Carries(es, u)
  {
    forall r | 0 <= r <= RAND_MAX
      ensures Finds(es, from, span, r) <==> Carries(es, Draw(from, span, r))
      ensures Draws(from, span, Draw(from, span, r))
    {
      AnswerIff(es, Draw(from, span, r));
    }
  }

  lemma DenseCarries(es: seq<Entry>, u: u64)
    requires Dense(es) && |es| > 0
    ensures Carries(es, u) <==> u <= es[|es| - 1].key.unique
  {
    DenseIff(es);
  }

  /** Between two numbers of a dense folder, in either order, every draw finds a stored message. */
  lemma SpanFinds(es: seq<Entry>, from: u64, till: u64, span: int)
    requires Stored(es) && Dense(es) && |es| > 0 && span == till - from
    requires from <= es[|es| - 1].key.unique && till <= es[|es| - 1].key.unique
    ensures AlwaysFinds(es, from, span)
  {
    forall r | 0 <= r <= RAND_MAX
      ensures Finds(es, from, span, r)
    {
      DrawBounds(from, till, r);
      DenseCarries(es, Draw(from, span, r));
      AnswerIff(es, Draw(from, span, r));
    }
  }

  /** A draw past the last number finds nothing. */
  lemma PastTheLast(es: seq<Entry>, from: int, span: int, r: nat)
    requires Stored(es) && Dense(es) && |es| > 0 && Draw(from, span, r) > es[|es| - 1].key.unique
    ensures !Finds(es, from, span, r) && Answer(es, Draw(from, span, r)) == PLACEHOLDER
  {
    DenseCarries(es, Draw(from, span, r));
    AnswerIff(es, Draw(from, span, r));
  }

  /** A range within a dense folder. */
  ghost predicate InFolder(es: seq<Entry>, range: UniqueRange) {
    && Stored(es) && Dense(es)
    && (|es| > 0 ==> range.from <= es[|es| - 1].key.unique && range.till <= es[|es| - 1].key.unique)
  }

  /** Numbers use at most half of the counter's cycle. */
  predicate BelowHalf(es: seq<Entry>) {
    |es| > 0 ==> es[|es| - 1].key.unique < TWO63
  }

  lemma EmptyFindsNothing(es: seq<Entry>, from: int, span: int)
    requires es == []
    ensures !AlwaysFinds(es, from, span) && Answer(es, Draw(from, span, 0)) == PLACEHOLDER
  {
    assert !Finds(es, from, span, 0);
  }

  /** Over HTTP, every draw over a range within a dense folder finds a stored message exactly when the
      folder is not empty and the range is in order; otherwise some draw is answered by an empty
      message. */
  lemma HttpCleanIff(es: seq<Entry>, range: UniqueRange)
    requires InFolder(es, range) && BelowHalf(es)
    ensures AlwaysFinds(es, range.from, HttpSpan(range)) <==> |es| > 0 && range.from <= range.till
    ensures |es| == 0 || range.from > range.till ==>
              exists r :: 0 <= r <= RAND_MAX && Answer(es, Draw(range.from, HttpSpan(range), r)) == PLACEHOLDER
  {
    if |es| == 0 {
      EmptyFindsNothing(es, range.from, HttpSpan(range));
    } else if range.from <= range.till {
      SpanInOrder(range);
      SpanFinds(es, range.from, range.till, HttpSpan(range));
    } else {
      SpanWraps(range);
      var r := WrappedDraw(range.from, range.till);
      PastTheLast(es, range.from, HttpSpan(range), r);
    }
  }

  /** Over HTTP, a period subsample of a dense folder always finds stored messages exactly when the
      folder is not empty and no key up to the period's start has a number above the one at its end. */
  lemma HttpPeriodCleanIff(es: seq<Entry>, fromTs: u64, tillTs: u64)
    requires Stored(es) && Dense(es) && BelowHalf(es)
    ensures var range := PeriodRange(es, fromTs, tillTs);
            AlwaysFinds(es, range.from, HttpSpan(range)) <==> |es| > 0 && NoRise(es, fromTs, tillTs)
  {
    DenseNeverDecreases(es);
    PeriodOrdered(es, fromTs, tillTs);
    PeriodInOrderIff(es, fromTs, tillTs);
    HttpCleanIff(es, PeriodRange(es, fromTs, tillTs));
  }

  /** A period out of order for which an empty message is sent. */
  lemma ReversedPeriodSendsPlaceholder()
    ensures exists es: seq<Entry>, r: nat ::
              && Stored(es) && Dense(es) && |es| == 2 && r <= RAND_MAX
              && Answer(es, Draw(PeriodRange(es, 20, 10).from, HttpSpan(PeriodRange(es, 20, 10)), r)) == PLACEHOLDER
  {
    var es := ReversedPeriod();
    HttpCleanIff(es, PeriodRange(es, 20, 10));
  }

  /** Over gRPC, every draw over a range within a dense folder finds a stored message, in whatever
      order the range comes, exactly when the folder is not empty and the range is within an `int`. */
  lemma GrpcCleanIff(es: seq<Entry>, range: UniqueRange)
    requires InFolder(es, range) && BelowHalf(es)
    ensures AlwaysFinds(es, GrpcFrom(range), GrpcSpan(range)) <==> |es| > 0 && WithinInt(range)
  {
    IntSpan(range);
    if |es| == 0 {
      EmptyFindsNothing(es, GrpcFrom(range), GrpcSpan(range));
    } else if WithinInt(range) {
      SpanFinds(es, range.from % TWO32, range.till % TWO32, GrpcSpan(range));
    } else {
      var r := NegativeEnd(range);
      PastTheLast(es, GrpcFrom(range), GrpcSpan(range), r);
    }
  }

  // ----- which entries can come up -----

  /** The entry at k is the first with its number. */
  predicate FirstHolder(es: seq<Entry>, k: nat)
    requires k < |es|
  {
    k == 0 || es[k - 1].key.unique < es[k].key.unique
  }

  ghost predicate Draws(from: int, span: int, u: u64) {
    exists r :: 0 <= r <= RAND_MAX && Draw(from, span, r) == u
  }

  ghost predicate ComesUp(es: seq<Entry>, from: int, span: int, k: nat)
    requires k < |es|
  {
    exists r :: 0 <= r <= RAND_MAX && Answer(es, Draw(from, span, r)) == es[k].value
  }

  /** An entry can come up exactly when it is the first with its number and its number can be drawn:
      an entry that reuses a number after a reopen never does. This is for every range and both
      services. */
  lemma SampleableIff(es: seq<Entry>, from: int, span: int, k: nat)
    requires Stored(es) && UniquesNeverDecrease(es) && k < |es|
    ensures ComesUp(es, from, span, k) <==> FirstHolder(es, k) && Draws(from, span, es[k].key.unique)
  {
    if FirstHolder(es, k) {
      FirstHolderAnswers(es, k);
      forall r | 0 <= r <= RAND_MAX && Answer(es, Draw(from, span, r)) == es[k].value
        ensures Draw(from, span, r) == es[k].key.unique
      {
        AnswerIff(es, Draw(from, span, r));
      }
    } else {
      forall r | 0 <= r <= RAND_MAX
        ensures Answer(es, Draw(from, span, r)) != es[k].value
      {
        RepeatedNumberHides(es, k, Draw(from, span, r));
      }
    }
  }

  /** Which numbers HTTP draws, for every range: those at an offset the unsigned span lands on. For a
      range in order up to RAND_MAX long these are all of its numbers. */
  lemma HttpDraws(range: UniqueRange, u: u64)
    ensures Draws(range.from, HttpSpan(range), u) <==> Visits(HttpSpan(range), (u - range.from) % TWO64)
    ensures range.from <= range.till <= range.from + RAND_MAX ==>
              (Draws(range.from, HttpSpan(range), u) <==> range.from <= u <= range.till)
  {
    UnsignedDraws(range.from, HttpSpan(range), u);
    if range.from <= range.till <= range.from + RAND_MAX {
      SpanInOrder(range);
      SpanDraws(range.from, range.till, HttpSpan(range), u);
    }
  }

  lemma UnsignedDraws(from: u64, span: u64, u: u64)
    ensures Draws(from, span, u) <==> Visits(span, (u - from) % TWO64)
  {
    if Visits(span, (u - from) % TWO64) {
      var r := VisitLands(span, (u - from) % TWO64);
      DrawsOffset(from, span, u, r);
    }
    forall r | 0 <= r <= RAND_MAX && Draw(from, span, r) == u
      ensures Visits(span, (u - from) % TWO64)
    {
      DrawsOffset(from, span, u, r);
      LandingVisits(span, r);
    }
  }

  lemma DrawsOffset(from: u64, span: u64, u: u64, r: nat)
    requires r <= RAND_MAX
    ensures Draw(from, span, r) == u <==> (span * r) / RAND_MAX == (u - from) % TWO64
  {
    ScaledBounds(span, r);
    DrawAsInteger(from, span, r);
    SameOffset(from, (span * r) / RAND_MAX, u);
  }

  lemma SameOffset(from: u64, q: u64, u: u64)
    ensures (from + q) % TWO64 == u <==> q == (u - from) % TWO64
  {
  }

  /** Which entries a period can return over HTTP: first holders of a number the draw lands on. For a
      range in order up to RAND_MAX long these go from the first holder of the number found at the
      period's start to the key found at its end, so that once a number was reused, the start's own
      entry can be replaced by an older one from before the period. */
  lemma PeriodSampleableIff(es: seq<Entry>, fromTs: u64, tillTs: u64, k: nat)
    requires Stored(es) && UniquesNeverDecrease(es) && k < |es|
    ensures var range := PeriodRange(es, fromTs, tillTs);
            && (ComesUp(es, range.from, HttpSpan(range), k)
                <==> FirstHolder(es, k) && Visits(HttpSpan(range), (es[k].key.unique - range.from) % TWO64))
            && (NoRise(es, fromTs, tillTs) && range.till - range.from <= RAND_MAX ==>
                  (ComesUp(es, range.from, HttpSpan(range), k) <==> FirstHolder(es, k) && Reached(es, fromTs, tillTs, k)))
  {
    var range := PeriodRange(es, fromTs, tillTs);
    PeriodInOrderIff(es, fromTs, tillTs);
    SampleableIff(es, range.from, HttpSpan(range), k);
    HttpDraws(range, es[k].key.unique);
    if FirstHolder(es, k) {
      ReachedIff(es, fromTs, tillTs, k);
    }
  }

  /** The entry at k lies between the keys found at the period's two probes, where one before the start
      counts if it has the start's number; a probe that finds no key stands for number 0. */
  predicate Reached(es: seq<Entry>, fromTs: u64, tillTs: u64, k: nat)
    requires k < |es|
  {
    var p, q := LastAtMost(es, ID(fromTs, 0)), LastAtMost(es, ID(tillTs, 0));
    && (p <= k || es[k].key.unique == es[p].key.unique)
    && (if q < 0 then es[k].key.unique == 0 else k <= q)
  }

  lemma ReachedIff(es: seq<Entry>, fromTs: u64, tillTs: u64, k: nat)
    requires UniquesNeverDecrease(es) && k < |es| && FirstHolder(es, k)
    ensures var range := PeriodRange(es, fromTs, tillTs);
            range.from <= es[k].key.unique <= range.till <==> Reached(es, fromTs, tillTs, k)
  {
    var p, q := LastAtMost(es, ID(fromTs, 0)), LastAtMost(es, ID(tillTs, 0));
    if 0 <= p {
      assert p < k ==> es[p].key.unique <= es[k].key.unique;
      assert k < p ==> es[k].key.unique <= es[p].key.unique;
    }
    if 0 <= q {
      assert k < q ==> es[k].key.unique <= es[q].key.unique;
      assert q < k ==> es[q].key.unique <= es[k - 1].key.unique;
    }
  }

  lemma ReusedAcrossReopen() returns (es: seq<Entry>)
    ensures Stored(es) && Dense(es) && |es| == 2 && PeriodRange(es, 10, 20) == UniqueRange(0, 0)
    ensures es[0].key.timestamp < 10 <= es[1].key.timestamp < 20
    ensures !FirstHolder(es, 1) && LastAtMost(es, ID(10, 0)) == 0
  {
    var a, b := ID(5, 0), ID(15, 0);
    es := [Entry(a, Data(a, [])), Entry(b, Data(b, []))];
    assert es[..1] == [es[0]];
    assert CompareIDs(b, ID(20, 0)) < 0 < CompareIDs(b, ID(10, 0));
    assert CompareIDs(a, ID(10, 0)) < 0;
    assert LastAtMost(es, ID(20, 0)) == 1;
    assert LastAtMost(es, ID(10, 0)) == LastAtMost(es[..1], ID(10, 0)) == 0;
  }

  /** A period whose only entry never comes up: an older entry with its number, saved before a reopen,
      is returned instead. */
  lemma PeriodReturnsOlderEntry()
    ensures exists es: seq<Entry> ::
              && Stored(es) && Dense(es) && |es| == 2
              && es[0].key.timestamp < 10 <= es[1].key.timestamp < 20
              && ComesUp(es, PeriodRange(es, 10, 20).from, HttpSpan(PeriodRange(es, 10, 20)), 0)
              && !ComesUp(es, PeriodRange(es, 10, 20).from, HttpSpan(PeriodRange(es, 10, 20)), 1)
  {
    var es := ReusedAcrossReopen();
    DenseNeverDecreases(es);
    PeriodInOrderIff(es, 10, 20);
    PeriodSampleableIff(es, 10, 20, 0);
    PeriodSampleableIff(es, 10, 20, 1);
    ReachedIff(es, 10, 20, 0);
  }

  /** Which numbers gRPC draws from a range within an `int`: those between its ends modulo 2^32. */
  lemma GrpcDraws(range: UniqueRange, u: u64)
    requires WithinInt(range)
    ensures Draws(GrpcFrom(range), GrpcSpan(range), u)
       <==> range.from % TWO32 <= u <= range.till % TWO32 || range.till % TWO32 <= u <= range.from % TWO32
  {
    IntSpan(range);
    SpanDraws(range.from % TWO32, range.till % TWO32, GrpcSpan(range), u);
  }

  lemma SpanDraws(from: u64, till: u64, span: int, u: u64)
    requires span == till - from && -RAND_MAX <= span <= RAND_MAX
    ensures Draws(from, span, u) <==> from <= u <= till || till <= u <= from
  {
    forall r | 0 <= r <= RAND_MAX
      ensures from <= Draw(from, span, r) <= till || till <= Draw(from, span, r) <= from
    {
      DrawBounds(from, till, r);
    }
    if from <= u <= till || till <= u <= from {
      var r := DrawReaches(from, till, u);
    }
  }

  lemma FirstHolderAnswers(es: seq<Entry>, k: nat)
    requires Stored(es) && UniquesNeverDecrease(es) && k < |es| && FirstHolder(es, k)
    ensures Answer(es, es[k].key.unique) == es[k].value
  {
  }

  lemma RepeatedNumberHides(es: seq<Entry>, k: nat, u: u64)
    requires Stored(es) && 0 < k < |es| && es[k - 1].key.unique == es[k].key.unique
    ensures Answer(es, u) != es[k].value
  {
  }

  // ----- batch arithmetic -----

  function ToInt32(x: u32): int {
    Signed(x, TWO32)
  }

  /** The batch size: the request's or 100, compared as unsigned with the amount. */
  function Step(amount: u32, batchSize: u32): (step: int)
    ensures 0 < amount < TWO31 ==> 0 < step <= amount
  {
    var requested := ToInt32(batchSize);
    var step := if requested == 0 then 100 else requested;
    if step % TWO32 > amount then ToInt32(amount) else step
  }

  /** Messages sent by a loop that counts i down by step and sends step messages per turn. */
  function Sends(i: int, step: nat): nat
    requires step > 0
    decreases i
  {
    if i <= 0 then 0 else step + Sends(i - step, step)
  }

  function SampleSize(amount: u32, batchSize: u32): nat {
    if ToInt32(amount) <= 0 then 0 else Sends(ToInt32(amount), Step(amount, batchSize))
  }

  lemma StepIsMin(amount: u32, batchSize: u32)
    requires 0 < amount < TWO31
    ensures var wanted := if batchSize == 0 then 100 else batchSize;
            Step(amount, batchSize) == if wanted <= amount then wanted else amount
  {
  }

  lemma {:induction false} SendsWholeBatches(i: int, step: nat) returns (batches: nat)
    requires step > 0
    ensures Sends(i, step) == batches * step
    ensures i > 0 ==> i <= Sends(i, step) < i + step
    decreases i
  {
    batches := 0;
    if i > 0 {
      var rest := SendsWholeBatches(i - step, step);
      batches := rest + 1;
      assert batches * step == rest * step + step;
    }
  }

  lemma WholeMultiples(n: nat, step: nat, batches: nat)
    requires step > 0 && n <= batches * step < n + step
    ensures batches * step == n <==> n % step == 0
  {
    var q, r := n / step, n % step;
    var k := batches - q;
    assert n == step * q + r;
    assert k * step == (batches * step - n) + r;
    SmallMultiple(k, step);
  }

  lemma SmallMultiple(k: int, step: nat)
    requires step > 0 && 0 <= k * step < 2 * step
    ensures k == 0 || k == 1
  {
  }

  /** For every request the sampler sends the least number of whole batches that reaches the amount:
      the amount itself exactly when the batch size divides it, and nothing for an amount that is 0
      or does not fit a signed integer. */
  lemma BatchArithmetic(amount: u32, batchSize: u32)
    ensures 0 < amount < TWO31 ==>
              var step := Step(amount, batchSize);
              && (exists batches: nat :: SampleSize(amount, batchSize) == batches * step)
              && amount <= SampleSize(amount, batchSize) < amount + step
              && (SampleSize(amount, batchSize) == amount <==> amount % step == 0)
    ensures amount == 0 || amount >= TWO31 ==> SampleSize(amount, batchSize) == 0
  {
    if 0 < amount < TWO31 {
      var batches := SendsWholeBatches(amount, Step(amount, batchSize));
      WholeMultiples(amount, Step(amount, batchSize), batches);
    }
  }

  // ----- the loop -----

  /** The answers to draws 0, 1, ... */
  ghost function Answers(es: seq<Entry>, from: int, span: int, rand: nat -> nat, n: nat): (ds: seq<Data>)
    ensures |ds| == n
  {
    seq(n, k requires 0 <= k < n => Answer(es, Draw(from, span, rand(k))))
  }

  function SliceAt(key: seq<byte>, at: nat): seq<byte>
    requires at + KEY_SIZE <= |key|
  {
    key[at..at + KEY_SIZE]
  }

  /** The j-th slice decodes to a wildcard for draw number drawn + j. */
  ghost predicate ProbeAt(key: seq<byte>, j: nat, from: int, span: int, rand: nat -> nat, drawn: nat) {
    && KEY_SIZE * j + KEY_SIZE <= |key|
    && DeserializeID(SliceAt(key, KEY_SIZE * j)) == ID(0, Draw(from, span, rand(drawn + j)))
  }

  /** All slices of a filled buffer. */
  ghost predicate Filled(key: seq<byte>, keys: seq<nat>, from: int, span: int, rand: nat -> nat, drawn: nat) {
    && (forall j :: 0 <= j < |keys| ==> keys[j] == KEY_SIZE * j)
    && (forall j :: 0 <= j < |keys| ==> ProbeAt(key, j, from, span, rand, drawn))
  }

  lemma ProbeSurvives(before: seq<byte>, after: seq<byte>, i: nat, j: nat, from: int, span: int, rand: nat -> nat,
                      drawn: nat)
    requires ProbeAt(before, i, from, span, rand, drawn) && i < j
    requires KEY_SIZE * j <= |before| == |after| && after[..KEY_SIZE * j] == before[..KEY_SIZE * j]
    ensures ProbeAt(after, i, from, span, rand, drawn)
  {
    var at, end := KEY_SIZE * i, KEY_SIZE * j;
    assert at + KEY_SIZE <= end;
    assert after[at..at + KEY_SIZE] == after[..end][at..at + KEY_SIZE];
    assert before[at..at + KEY_SIZE] == before[..end][at..at + KEY_SIZE];
  }

  /** Fills the key buffer; a slice is the position of its 16 bytes. Every slice still decodes to
      its own draw at the end. */
  method FillProbes(key: array<byte>, step: nat, from: int, span: int, rand: nat -> nat, drawn: nat)
    returns (keys: seq<nat>)
    requires key.Length == KEY_SIZE * step
    modifies key
    ensures |keys| == step && Filled(key[..], keys, from, span, rand, drawn)
  {
    keys := [];
    var j := 0;
    while j < step
      invariant 0 <= j <= step && |keys| == j
      invariant forall i :: 0 <= i < j ==> keys[i] == KEY_SIZE * i
      invariant forall i :: 0 <= i < j ==> ProbeAt(key[..], i, from, span, rand, drawn)
    {
      var random := Draw(from, span, rand(drawn + j));
      ghost var before := key[..];
      SerializeID(ID(0, random), key, KEY_SIZE * j);
      assert SliceAt(key[..], KEY_SIZE * j) == key[KEY_SIZE * j..KEY_SIZE * j + KEY_SIZE];
      assert key[..][..KEY_SIZE * j] == before[..KEY_SIZE * j];
      forall i | 0 <= i < j
        ensures ProbeAt(key[..], i, from, span, rand, drawn)
      {
        ProbeSurvives(before, key[..], i, j, from, span, rand, drawn);
      }
      keys := keys + [KEY_SIZE * j];
      j := j + 1;
    }
  }

  /** What a point read through a slice returns. */
  function Read(es: seq<Entry>, slice: seq<byte>): Option<Data>
    requires |slice| == KEY_SIZE
  {
    match Lookup(es, DeserializeID(slice))
    case None => None
    case Some(e) => Some(e.value)
  }

  /** A read through a probe: nothing, or a message under a key equal to the probe; the one a linear
      scan finds if the probe can be searched. */
  ghost predicate ReadBy(es: seq<Entry>, slice: seq<byte>, v: Option<Data>)
    requires |slice| == KEY_SIZE
  {
    && (v.Some? ==> exists k :: 0 <= k < |es| && es[k].value == v.value && CompareIDs(es[k].key, DeserializeID(slice)) == 0)
    && (Searchable(es, DeserializeID(slice)) ==> v == Read(es, slice))
  }

  /** `GetBatch`: one point read per slice. */
  method GetBatch(es: seq<Entry>, key: array<byte>, keys: seq<nat>) returns (values: seq<Option<Data>>)
    requires forall k :: 0 <= k < |keys| ==> keys[k] + KEY_SIZE <= key.Length
    ensures |values| == |keys|
    ensures forall k :: 0 <= k < |keys| ==> ReadBy(es, SliceAt(key[..], keys[k]), values[k])
  {
    values := [];
    while |values| < |keys|
      invariant |values| <= |keys|
      invariant forall k :: 0 <= k < |values| ==> ReadBy(es, SliceAt(key[..], keys[k]), values[k])
    {
      var at := keys[|values|];
      assert SliceAt(key[..], at) == key[at..at + KEY_SIZE];
      var found := Find(es, DeserializeID(key[at..at + KEY_SIZE]));
      var value := match found case None => None case Some(e) => Some(e.value);
      assert ReadBy(es, SliceAt(key[..], at), value);
      values := values + [value];
    }
  }

  /** d answers the draw of u: an empty message or one stored under u, and exactly what a linear scan
      answers if the folder can be searched for u. */
  ghost predicate Serves(es: seq<Entry>, u: u64, d: Data) {
    && (d == PLACEHOLDER || exists k :: 0 <= k < |es| && es[k].value == d && es[k].key.unique == u)
    && (Searchable(es, ID(0, u)) ==> d == Answer(es, u))
  }

  /** Message k answers draw first + k. */
  ghost predicate ServesAll(es: seq<Entry>, from: int, span: int, rand: nat -> nat, first: nat, ds: seq<Data>) {
    forall k :: 0 <= k < |ds| ==> Serves(es, Draw(from, span, rand(first + k)), ds[k])
  }

  lemma FilledRead(es: seq<Entry>, key: seq<byte>, keys: seq<nat>, from: int, span: int, rand: nat -> nat, drawn: nat,
                   j: nat, v: Option<Data>)
    requires Filled(key, keys, from, span, rand, drawn) && j < |keys|
    requires keys[j] + KEY_SIZE <= |key| && ReadBy(es, SliceAt(key, keys[j]), v)
    ensures Serves(es, Draw(from, span, rand(drawn + j)), OrPlaceholder(v))
  {
    assert ProbeAt(key, j, from, span, rand, drawn);
  }

  /** Missing values become empty messages. */
  method MessagesOf(values: seq<Option<Data>>) returns (batch: seq<Data>)
    ensures |batch| == |values| && forall s :: 0 <= s < |values| ==> batch[s] == OrPlaceholder(values[s])
  {
    batch := [];
    while |batch| < |values|
      invariant |batch| <= |values|
      invariant forall s :: 0 <= s < |batch| ==> batch[s] == OrPlaceholder(values[s])
    {
      batch := batch + [OrPlaceholder(values[|batch|])];
    }
  }

  lemma FilledFits(key: seq<byte>, keys: seq<nat>, from: int, span: int, rand: nat -> nat, drawn: nat)
    requires Filled(key, keys, from, span, rand, drawn)
    ensures forall j :: 0 <= j < |keys| ==> keys[j] + KEY_SIZE <= |key|
  {
    forall j | 0 <= j < |keys|
      ensures keys[j] + KEY_SIZE <= |key|
    {
      assert ProbeAt(key, j, from, span, rand, drawn);
    }
  }

  /** Reads a filled buffer. */
  method ReadBatch(es: seq<Entry>, key: array<byte>, keys: seq<nat>,
                   ghost from: int, ghost span: int, ghost rand: nat -> nat, ghost drawn: nat)
    returns (batch: seq<Data>)
    requires Filled(key[..], keys, from, span, rand, drawn)
    ensures |batch| == |keys| && ServesAll(es, from, span, rand, drawn, batch)
  {
    FilledFits(key[..], keys, from, span, rand, drawn);
    var values := GetBatch(es, key, keys);
    batch := MessagesOf(values);
    forall k | 0 <= k < |batch|
      ensures Serves(es, Draw(from, span, rand(drawn + k)), batch[k])
    {
      FilledRead(es, key[..], keys, from, span, rand, drawn, k, values[k]);
    }
  }

  /** One turn of the batch loop. */
  method SampleBatch(es: seq<Entry>, step: nat, from: int, span: int, rand: nat -> nat, drawn: nat)
    returns (batch: seq<Data>)
    ensures |batch| == step && ServesAll(es, from, span, rand, drawn, batch)
  {
    var key := new byte[KEY_SIZE * step];
    var keys := FillProbes(key, step, from, span, rand, drawn);
    batch := ReadBatch(es, key, keys, from, span, rand, drawn);
  }

  /** A value that was not found is parsed from no bytes. */
  function OrPlaceholder(value: Option<Data>): Data {
    match value
    case None => PLACEHOLDER
    case Some(d) => d
  }

  lemma ServesMore(es: seq<Entry>, from: int, span: int, rand: nat -> nat, ds: seq<Data>, batch: seq<Data>)
    requires ServesAll(es, from, span, rand, 0, ds) && ServesAll(es, from, span, rand, |ds|, batch)
    ensures ServesAll(es, from, span, rand, 0, ds + batch)
  {
    var all := ds + batch;
    forall k | 0 <= k < |all|
      ensures Serves(es, Draw(from, span, rand(0 + k)), all[k])
    {
      if k >= |ds| {
        assert all[k] == batch[k - |ds|];
        assert Serves(es, Draw(from, span, rand(|ds| + (k - |ds|))), batch[k - |ds|]);
      }
    }
  }

  /** The whole subsample: message k answers draw k. */
  method SampleBatches(es: seq<Entry>, from: int, span: int, amount: u32, batchSize: u32, rand: nat -> nat)
    returns (messages: seq<Data>)
    ensures |messages| == SampleSize(amount, batchSize) && ServesAll(es, from, span, rand, 0, messages)
  {
    messages := [];
    var step := Step(amount, batchSize);
    var i := ToInt32(amount);
    while i > 0
      invariant i > 0 ==> step > 0
      invariant i > 0 ==> SampleSize(amount, batchSize) == |messages| + Sends(i, step)
      invariant i <= 0 ==> SampleSize(amount, batchSize) == |messages|
      invariant ServesAll(es, from, span, rand, 0, messages)
      decreases i
    {
      var batch := SampleBatch(es, step, from, span, rand, |messages|);
      ServesMore(es, from, span, rand, messages, batch);
      messages := messages + batch;
      i := i - step;
    }
  }

  // ----- end to end -----

  ghost predicate AllStored(es: seq<Entry>, ds: seq<Data>) {
    forall k :: 0 <= k < |ds| ==> IsStored(es, ds[k])
  }

  /** A sequence of rand() results. */
  ghost predicate IsRand(rand: nat -> nat) {
    forall k :: rand(k) <= RAND_MAX
  }

  /** If numbers never decrease, the messages are the answers of linear scans. */
  lemma ServedIsAnswers(es: seq<Entry>, from: int, span: int, rand: nat -> nat, ds: seq<Data>)
    requires Stored(es) && UniquesNeverDecrease(es) && ServesAll(es, from, span, rand, 0, ds)
    ensures ds == Answers(es, from, span, rand, |ds|)
  {
    forall k | 0 <= k < |ds|
      ensures ds[k] == Answer(es, Draw(from, span, rand(k)))
    {
      assert Serves(es, Draw(from, span, rand(0 + k)), ds[k]);
      SearchableProbe(es, ID(0, Draw(from, span, rand(k))));
    }
  }

  /** No subsample, of whatever size and for whatever random numbers, contains an empty message. */
  ghost predicate NeverEmpty(es: seq<Entry>, from: int, span: int) {
    forall rand: nat -> nat, n: nat :: IsRand(rand) ==> AllStored(es, Answers(es, from, span, rand, n))
  }

  /** Subsamples never contain an empty message exactly when every single draw finds a stored one. */
  lemma NeverEmptyIff(es: seq<Entry>, from: int, span: int)
    ensures NeverEmpty(es, from, span) <==> AlwaysFinds(es, from, span)
  {
    if AlwaysFinds(es, from, span) {
      forall rand: nat -> nat, n: nat | IsRand(rand)
        ensures AllStored(es, Answers(es, from, span, rand, n))
      {
        forall k | 0 <= k < n
          ensures IsStored(es, Answers(es, from, span, rand, n)[k])
        {
          assert Finds(es, from, span, rand(k));
        }
      }
    } else {
      var r :| 0 <= r <= RAND_MAX && !Finds(es, from, span, r);
      var rand: nat -> nat := _ => r;
      assert IsRand(rand);
      assert !IsStored(es, Answers(es, from, span, rand, 1)[0]);
      assert !AllStored(es, Answers(es, from, span, rand, 1));
    }
  }

  /** HTTP subsamples over a range within a dense folder. */
  lemma HttpNeverEmptyIff(es: seq<Entry>, range: UniqueRange)
    requires InFolder(es, range) && BelowHalf(es)
    ensures NeverEmpty(es, range.from, HttpSpan(range)) <==> |es| > 0 && range.from <= range.till
  {
    HttpCleanIff(es, range);
    NeverEmptyIff(es, range.from, HttpSpan(range));
  }

  /** gRPC subsamples over a range within a dense folder. */
  lemma GrpcNeverEmptyIff(es: seq<Entry>, range: UniqueRange)
    requires InFolder(es, range) && BelowHalf(es)
    ensures NeverEmpty(es, GrpcFrom(range), GrpcSpan(range)) <==> |es| > 0 && WithinInt(range)
  {
    GrpcCleanIff(es, range);
    NeverEmptyIff(es, GrpcFrom(range), GrpcSpan(range));
  }
}
