/** Number ranges for subsampling: `GetUniqueRange` and `GetUniqueRangeForTS` (src/DbClient.cpp). */
module UniqueRanges {
  import opened Bytes
  import opened Keys
  import opened Folders

  datatype UniqueRange = UniqueRange(from: u64, till: u64)

  /** Numbers start at 0 and move by 0 or 1 along the key order. */
  ghost predicate Dense(es: seq<Entry>) {
    && (|es| > 0 ==> es[0].key.unique == 0)
    && forall i {:trigger es[i]} :: 0 < i < |es| ==>
         es[i - 1].key.unique <= es[i].key.unique <= es[i - 1].key.unique + 1
  }

  ghost predicate Carries(es: seq<Entry>, u: int) {
    exists k :: 0 <= k < |es| && es[k].key.unique == u
  }

  lemma {:induction false} DenseOrdered(es: seq<Entry>, i: nat, j: nat)
    requires Dense(es) && i <= j < |es|
    ensures es[i].key.unique <= es[j].key.unique
  {
    if i < j {
      DenseOrdered(es, i, j - 1);
    }
  }

  lemma {:induction false} DenseReaches(es: seq<Entry>, u: nat, n: nat)
    requires Dense(es) && n < |es| && u <= es[n].key.unique
    ensures Carries(es, u)
  {
    if n > 0 && u <= es[n - 1].key.unique {
      DenseReaches(es, u, n - 1);
    } else {
      assert es[n].key.unique == u;
    }
  }

  lemma DenseNeverDecreases(es: seq<Entry>)
    requires Dense(es)
    ensures UniquesNeverDecrease(es)
  {
    forall i, j | 0 <= i < j < |es|
      ensures es[i].key.unique <= es[j].key.unique
    {
      DenseOrdered(es, i, j);
    }
  }

  /** Every number up to the last one is carried by some entry. */
  ghost predicate Gapless(es: seq<Entry>) {
    forall u :: 0 <= u && |es| > 0 && u <= es[|es| - 1].key.unique ==> Carries(es, u)
  }

  lemma NoJump(es: seq<Entry>, i: nat)
    requires UniquesNeverDecrease(es) && Gapless(es) && 0 < i < |es|
    ensures es[i].key.unique <= es[i - 1].key.unique + 1
  {
    var u := es[i - 1].key.unique + 1;
    if u < es[i].key.unique {
      assert es[i].key.unique <= es[|es| - 1].key.unique;
      assert Carries(es, u);
      var k :| 0 <= k < |es| && es[k].key.unique == u;
      assert false;
    }
  }

  /** Dense folders are exactly those whose numbers never decrease and have no gap. */
  lemma DenseIff(es: seq<Entry>)
    ensures Dense(es) <==> UniquesNeverDecrease(es) && Gapless(es)
  {
    if Dense(es) {
      DenseNeverDecreases(es);
      forall u | 0 <= u && |es| > 0 && u <= es[|es| - 1].key.unique
        ensures Carries(es, u)
      {
        DenseReaches(es, u, |es| - 1);
      }
    } else if UniquesNeverDecrease(es) && Gapless(es) {
      assert |es| > 0 ==> Carries(es, 0);
      forall i | 0 < i < |es|
        ensures es[i].key.unique <= es[i - 1].key.unique + 1
      {
        NoJump(es, i);
      }
      assert false;
    }
  }

  function NumberAtMost(es: seq<Entry>, p: ID): u64 {
    var at := LastAtMost(es, p);
    if at >= 0 then es[at].key.unique else 0
  }

  function TotalRange(es: seq<Entry>): UniqueRange {
    if |es| == 0 then UniqueRange(0, 0) else UniqueRange(es[0].key.unique, es[|es| - 1].key.unique)
  }

  function PeriodRange(es: seq<Entry>, fromTs: u64, tillTs: u64): UniqueRange {
    UniqueRange(NumberAtMost(es, ID(fromTs, 0)), NumberAtMost(es, ID(tillTs, 0)))
  }

  method GetUniqueRange(es: seq<Entry>) returns (range: UniqueRange)
    ensures range == TotalRange(es)
    ensures |es| == 0 ==> range.from == 0 && range.till == 0
    ensures |es| > 0 ==> range.from == es[0].key.unique && range.till == es[|es| - 1].key.unique
  {
    var iter := new Cursor(es);
    var from, till := 0, 0;
    iter.SeekToFirst();
    if iter.Valid() {
      from := iter.Current().key.unique;
    }
    iter.SeekToLast();
    if iter.Valid() {
      till := iter.Current().key.unique;
    }
    range := UniqueRange(from, till);
  }

  /** A key no later than the start of timestamp ts; without a timestamp, one with number 0. */
  predicate UpTo(k: ID, ts: u64) {
    if ts == 0 then k.unique == 0
    else k.timestamp < ts || (k.timestamp == ts && k.unique == 0)
  }

  /** u is the number of the last entry up to ts, or 0 if there is none. */
  ghost predicate EndsAt(es: seq<Entry>, ts: u64, u: u64) {
    || (u == 0 && forall k :: 0 <= k < |es| ==> !UpTo(es[k].key, ts))
    || (exists k :: 0 <= k < |es| && UpTo(es[k].key, ts) && es[k].key.unique == u
                    && forall m :: k < m < |es| ==> !UpTo(es[m].key, ts))
  }

  /** Which number the probe (ts, 0) finds, in terms of timestamps. */
  lemma EndsAtProbe(es: seq<Entry>, ts: u64)
    ensures Stored(es) ==> EndsAt(es, ts, NumberAtMost(es, ID(ts, 0)))
    ensures Stored(es) && (ts != 0 || UniquesNeverDecrease(es)) ==> Searchable(es, ID(ts, 0))
  {
    if Stored(es) {
      forall k | 0 <= k < |es|
        ensures UpTo(es[k].key, ts) <==> CompareIDs(es[k].key, ID(ts, 0)) <= 0
      {
      }
    }
  }

  /** Both ends of a period's range, for every period. */
  lemma PeriodEnds(es: seq<Entry>, fromTs: u64, tillTs: u64)
    requires Stored(es)
    ensures forall u: u64 :: EndsAt(es, fromTs, u) <==> u == PeriodRange(es, fromTs, tillTs).from
    ensures forall u: u64 :: EndsAt(es, tillTs, u) <==> u == PeriodRange(es, fromTs, tillTs).till
  {
    EndsAtProbe(es, fromTs);
    EndsAtProbe(es, tillTs);
  }

  /** u is the number of some key at most p, or 0. */
  ghost predicate NumberBelow(es: seq<Entry>, p: ID, u: u64) {
    u == 0 || exists k :: 0 <= k < |es| && CompareIDs(es[k].key, p) <= 0 && es[k].key.unique == u
  }

  method GetUniqueRangeForTS(es: seq<Entry>, fromTs: u64, tillTs: u64) returns (range: UniqueRange)
    ensures NumberBelow(es, ID(fromTs, 0), range.from) && NumberBelow(es, ID(tillTs, 0), range.till)
    ensures Searchable(es, ID(fromTs, 0)) ==> range.from == PeriodRange(es, fromTs, tillTs).from
    ensures Searchable(es, ID(tillTs, 0)) ==> range.till == PeriodRange(es, fromTs, tillTs).till
    ensures Stored(es) && (fromTs != 0 || UniquesNeverDecrease(es)) ==> EndsAt(es, fromTs, range.from)
    ensures Stored(es) && (tillTs != 0 || UniquesNeverDecrease(es)) ==> EndsAt(es, tillTs, range.till)
  {
    EndsAtProbe(es, fromTs);
    EndsAtProbe(es, tillTs);
    var iter := new Cursor(es);
    var from, till := 0, 0;
    iter.SeekForPrev(ID(fromTs, 0));
    if iter.Valid() {
      from := iter.Current().key.unique;
    }
    iter.SeekForPrev(ID(tillTs, 0));
    if iter.Valid() {
      till := iter.Current().key.unique;
    }
    range := UniqueRange(from, till);
  }

  /** In a dense folder every number of the total range is carried by an entry, and no other is. */
  lemma TotalRangeIsCarried(es: seq<Entry>)
    requires Dense(es) && |es| > 0
    ensures forall u :: TotalRange(es).from <= u <= TotalRange(es).till <==> Carries(es, u)
  {
    DenseIff(es);
    assert forall k :: 0 <= k < |es| ==> es[k].key.unique <= es[|es| - 1].key.unique;
  }

  /** Where a probe (ts, 0) splits the folder: everything at or before `at` is at most the probe. */
  lemma ProbeSplits(es: seq<Entry>, p: ID)
    requires Searchable(es, p)
    ensures forall k :: 0 <= k < |es| ==> (k <= LastAtMost(es, p) <==> CompareIDs(es[k].key, p) <= 0)
  {
  }

  /** The number range of a period covers the period. */
  lemma PeriodCovers(es: seq<Entry>, fromTs: u64, tillTs: u64)
    requires Stored(es) && UniquesNeverDecrease(es)
    ensures forall e :: e in es && fromTs <= e.key.timestamp < tillTs ==>
              PeriodRange(es, fromTs, tillTs).from <= e.key.unique <= PeriodRange(es, fromTs, tillTs).till
  {
  }

  lemma NumbersFollowPositions(es: seq<Entry>, i: nat, j: nat)
    requires UniquesIncrease(es) && i < |es| && j < |es|
    ensures es[i].key.unique <= es[j].key.unique <==> i <= j
  {
    assert i < j ==> es[i].key.unique < es[j].key.unique;
    assert j < i ==> es[j].key.unique < es[i].key.unique;
  }

  /** Positions of the entries whose numbers lie in a period's range; a probe that reaches no key
      counts as number 0. */
  lemma PeriodPositions(es: seq<Entry>, fromTs: u64, tillTs: u64, k: nat)
    requires UniquesIncrease(es) && k < |es|
    ensures PeriodRange(es, fromTs, tillTs).from <= es[k].key.unique <= PeriodRange(es, fromTs, tillTs).till
       <==> LastAtMost(es, ID(fromTs, 0)) <= k
            && if LastAtMost(es, ID(tillTs, 0)) >= 0 then k <= LastAtMost(es, ID(tillTs, 0)) else es[k].key.unique == 0
  {
    var p, q := LastAtMost(es, ID(fromTs, 0)), LastAtMost(es, ID(tillTs, 0));
    if p >= 0 {
      NumbersFollowPositions(es, p, k);
    }
    if q >= 0 {
      NumbersFollowPositions(es, k, q);
    }
  }

  /** What the number range of a period picks out: the last key at most (fromTs, 0), the period's own
      entries, the key (tillTs, 0), and, if a probe reaches no key, the entry with number 0. */
  ghost predicate Picked(es: seq<Entry>, fromTs: u64, tillTs: u64, k: nat)
    requires k < |es|
  {
    var p, q := LastAtMost(es, ID(fromTs, 0)), LastAtMost(es, ID(tillTs, 0));
    var range := PeriodRange(es, fromTs, tillTs);
    || (k == p && range.from <= range.till)
    || fromTs <= es[k].key.timestamp < tillTs
    || (fromTs <= tillTs && tillTs != 0 && es[k].key == ID(tillTs, 0))
    || ((p < 0 || q < 0) && range.from == 0 && es[k].key.unique == 0)
  }

  /** A timed probe (ts, 0) is at or past a key exactly when the key is older, or is (ts, 0). */
  lemma AtMostTimed(es: seq<Entry>, ts: u64, k: nat)
    requires Stored(es) && k < |es| && ts != 0
    ensures k <= LastAtMost(es, ID(ts, 0)) <==> es[k].key.timestamp < ts || es[k].key == ID(ts, 0)
  {
    TimedProbeIsSearchable(es, ID(ts, 0));
    ProbeSplits(es, ID(ts, 0));
  }

  lemma AtMostWildcard(es: seq<Entry>, k: nat)
    requires Stored(es) && UniquesIncrease(es) && k < |es|
    ensures k <= LastAtMost(es, ID(0, 0)) <==> es[k].key.unique == 0
  {
    SearchableProbe(es, ID(0, 0));
    ProbeSplits(es, ID(0, 0));
  }

  /** With increasing numbers, the number range of a period picks out exactly these entries. */
  lemma PeriodExactly(es: seq<Entry>, fromTs: u64, tillTs: u64, k: nat)
    requires Stored(es) && UniquesIncrease(es) && k < |es|
    ensures PeriodRange(es, fromTs, tillTs).from <= es[k].key.unique <= PeriodRange(es, fromTs, tillTs).till
       <==> Picked(es, fromTs, tillTs, k)
  {
    PeriodPositions(es, fromTs, tillTs, k);
    PeriodCovers(es, fromTs, tillTs);
    AtMostWildcard(es, k);
    if fromTs != 0 {
      AtMostTimed(es, fromTs, k);
    }
    if tillTs != 0 {
      AtMostTimed(es, tillTs, k);
    }
  }

  lemma SearchableProbe(es: seq<Entry>, p: ID)
    requires Stored(es) && (p.timestamp != 0 || UniquesNeverDecrease(es))
    ensures Searchable(es, p)
  {
  }

  /** A period given in order yields a range in order, within the stored numbers. */
  lemma PeriodOrdered(es: seq<Entry>, fromTs: u64, tillTs: u64)
    requires Stored(es) && UniquesNeverDecrease(es)
    ensures fromTs <= tillTs ==> PeriodRange(es, fromTs, tillTs).from <= PeriodRange(es, fromTs, tillTs).till
    ensures |es| > 0 ==> PeriodRange(es, fromTs, tillTs).from <= es[|es| - 1].key.unique
    ensures |es| > 0 ==> PeriodRange(es, fromTs, tillTs).till <= es[|es| - 1].key.unique
  {
  }

  /** No key at most (fromTs, 0) has a number above the one found at (tillTs, 0). */
  ghost predicate NoRise(es: seq<Entry>, fromTs: u64, tillTs: u64) {
    forall e :: e in es && CompareIDs(e.key, ID(fromTs, 0)) <= 0 ==> e.key.unique <= NumberAtMost(es, ID(tillTs, 0))
  }

  /** The range of a period comes in order exactly when no key up to its start has a number above
      its end's: always for a period in order, and for one out of order if no number rises between. */
  lemma PeriodInOrderIff(es: seq<Entry>, fromTs: u64, tillTs: u64)
    requires Stored(es) && UniquesNeverDecrease(es)
    ensures PeriodRange(es, fromTs, tillTs).from <= PeriodRange(es, fromTs, tillTs).till <==> NoRise(es, fromTs, tillTs)
    ensures fromTs <= tillTs ==> NoRise(es, fromTs, tillTs)
  {
    SearchableProbe(es, ID(fromTs, 0));
    ProbeSplits(es, ID(fromTs, 0));
    PeriodOrdered(es, fromTs, tillTs);
    var p := LastAtMost(es, ID(fromTs, 0));
    if p >= 0 {
      assert es[p] in es;
    }
  }

  /** Given out of order, it need not: then the HTTP sampler's unsigned span wraps around. */
  lemma ReversedPeriod() returns (es: seq<Entry>)
    ensures Stored(es) && Dense(es) && |es| == 2 && PeriodRange(es, 20, 10) == UniqueRange(1, 0)
  {
    var a, b := ID(5, 0), ID(15, 1);
    es := [Entry(a, Data(a, [])), Entry(b, Data(b, []))];
    assert es[..1] == [es[0]];
    assert CompareIDs(b, ID(20, 0)) < 0 < CompareIDs(b, ID(10, 0));
    assert CompareIDs(a, ID(10, 0)) < 0;
    assert LastAtMost(es, ID(20, 0)) == 1;
    assert LastAtMost(es, ID(10, 0)) == LastAtMost(es[..1], ID(10, 0)) == 0;
  }
}
