/** What the range scan means to its callers. */
module ScanLaws {
  import opened Bytes
  import opened Keys
  import opened Folders
  import opened RangeScan

  /** A forward scan sends, oldest first and without repetition, the entries with
      from <= timestamp and (till = 0 or timestamp <= till), as many as the limits permit. */
  lemma ForwardScan(es: seq<Entry>, r: RangeRequest, callback: Callback) returns (all: seq<Entry>)
    requires Stored(es) && !r.reverse
    ensures forall e :: e in all <==> e in es && r.from <= e.key.timestamp && (r.till == 0 || e.key.timestamp <= r.till)
    ensures Ascending(all)
    ensures var n := |Scan(es, r, callback)|;
            && n <= |all| && Scan(es, r, callback) == all[..n]
            && (forall m :: 0 <= m <= |all| ==> (Permitted(r, callback, all, m) <==> m <= n))
            && (r.maxMessages > 0 ==> n <= r.maxMessages)
            && (r.maxBytes == 0 ==> n == if 0 < r.maxMessages < |all| then r.maxMessages else |all|)
            && (n < |all| ==> n == r.maxMessages > 0 || Total(callback, all[..n]) >= r.maxBytes > 0)
  {
    all := Filter(es, WindowOf(es, r));
    FilterMembers(es, WindowOf(es, r));
    FilterAscending(es, WindowOf(es, r));
    CutIsLongest(r, callback, all);
    CutLimits(r, callback, all);
  }

  ghost predicate Descending(es: seq<Entry>) {
    forall i, j :: 0 <= i < j < |es| ==> Earlier(es[j].key, es[i].key)
  }

  /** A reverse scan sends, newest first and without repetition, the entries newer than `from`
      (all if from = 0) that are at most (till, 0) -- or all of them, if none is. */
  lemma ReverseScan(es: seq<Entry>, r: RangeRequest, callback: Callback) returns (all: seq<Entry>)
    requires Stored(es) && r.reverse
    ensures forall e :: e in all <==>
              && e in es && (r.from == 0 || r.from < e.key.timestamp)
              && (r.till == 0 || e.key.timestamp < r.till || e.key == ID(r.till, 0)
                  || forall x :: x in es ==> r.till < x.key.timestamp || (r.till == x.key.timestamp && 0 < x.key.unique))
    ensures Descending(all)
    ensures var n := |Scan(es, r, callback)|;
            && n <= |all| && Scan(es, r, callback) == all[..n]
            && (forall m :: 0 <= m <= |all| ==> (Permitted(r, callback, all, m) <==> m <= n))
            && (r.maxMessages > 0 ==> n <= r.maxMessages)
            && (r.maxBytes == 0 ==> n == if 0 < r.maxMessages < |all| then r.maxMessages else |all|)
            && (n < |all| ==> n == r.maxMessages > 0 || Total(callback, all[..n]) >= r.maxBytes > 0)
  {
    var w := WindowOf(es, r);
    all := Filter(Reversed(es), w);
    FilterReversed(es, w);
    FilterMembers(es, w);
    FilterAscending(es, w);
    forall e
      ensures e in all <==> e in Filter(es, w)
    {
      ReversedMembers(Filter(es, w), e);
    }
    forall e | e in es && r.till != 0
      ensures CompareIDs(e.key, ID(r.till, 0)) <= 0 <==> e.key.timestamp < r.till || e.key == ID(r.till, 0)
    {
    }
    if r.till != 0 {
      NoneAtMostMeans(es, r.till);
    }
    CutIsLongest(r, callback, all);
    CutLimits(r, callback, all);
  }

  lemma NoneAtMostMeans(es: seq<Entry>, till: u64)
    requires Stored(es) && till != 0
    ensures NoneAtMost(es, till)
       <==> forall x :: x in es ==> till < x.key.timestamp || (till == x.key.timestamp && 0 < x.key.unique)
  {
    if forall x :: x in es ==> till < x.key.timestamp || (till == x.key.timestamp && 0 < x.key.unique) {
      forall i | 0 <= i < |es|
        ensures CompareIDs(es[i].key, ID(till, 0)) > 0
      {
        assert es[i] in es;
      }
    }
  }

  lemma ReversedMembers(es: seq<Entry>, e: Entry)
    ensures e in Reversed(es) <==> e in es
  {
    if e in es {
      var i :| 0 <= i < |es| && es[i] == e;
      assert Reversed(es)[|es| - 1 - i] == e;
    }
  }

  /** What a reverse scan would send if it never started over from the last key. */
  ghost function BoundedReverse(es: seq<Entry>, r: RangeRequest, callback: Callback): seq<Entry> {
    Cut(r, callback, Filter(Reversed(es), Reverse(r.from, r.till, r.till == 0)))
  }

  /** A reverse scan honours `till` exactly when till is 0, or some key is at most (till, 0), or
      there is nothing newer than `from` to send in its place. */
  lemma ReverseBoundIff(es: seq<Entry>, r: RangeRequest, callback: Callback)
    requires Stored(es) && r.reverse
    ensures Scan(es, r, callback) == BoundedReverse(es, r, callback)
       <==> r.till == 0 || !NoneAtMost(es, r.till) || forall e :: e in es ==> r.from != 0 && e.key.timestamp <= r.from
  {
    if r.till != 0 && NoneAtMost(es, r.till) {
      FilterNone(Reversed(es), Reverse(r.from, r.till, false));
      assert BoundedReverse(es, r, callback) == [];
      OpenScanEmptyIff(es, r, callback);
    }
  }

  lemma CutEmptyIff(r: RangeRequest, callback: Callback, all: seq<Entry>)
    ensures Cut(r, callback, all) == [] <==> all == []
  {
    CutLimits(r, callback, all);
  }

  lemma OpenScanEmptyIff(es: seq<Entry>, r: RangeRequest, callback: Callback)
    requires r.reverse && r.till != 0 && NoneAtMost(es, r.till)
    ensures Scan(es, r, callback) == [] <==> forall e :: e in es ==> r.from != 0 && e.key.timestamp <= r.from
  {
    var open := Reverse(r.from, r.till, true);
    FilterReversed(es, open);
    FilterMembers(es, open);
    CutEmptyIff(r, callback, Filter(Reversed(es), open));
    if Filter(es, open) == [] {
      forall e | e in es
        ensures r.from != 0 && e.key.timestamp <= r.from
      {
        assert e !in Filter(es, open);
      }
    } else {
      assert Filter(es, open)[0] in es;
    }
  }

  ghost predicate Unlimited(r: RangeRequest) {
    r.maxMessages == 0 && r.maxBytes == 0
  }

  lemma UnlimitedScan(es: seq<Entry>, r: RangeRequest, callback: Callback)
    requires Unlimited(r)
    ensures Scan(es, r, callback) == Filter(InOrder(es, r.reverse), WindowOf(es, r))
  {
    CutUnlimited(r, callback, Filter(InOrder(es, r.reverse), WindowOf(es, r)));
  }

  lemma {:induction false} FilterAll(es: seq<Entry>, w: Window)
    requires forall i :: 0 <= i < |es| ==> w.Accepts(es[i].key)
    ensures Filter(es, w) == es
  {
    if |es| > 0 {
      FilterAll(es[..|es| - 1], w);
    }
  }

  /** Whenever the fallback happens, an unlimited reverse scan from 0 sends the whole folder, all of it
      above the requested bound. */
  lemma ReverseIgnoresTill(es: seq<Entry>, r: RangeRequest, callback: Callback)
    requires Stored(es) && r.reverse && r.from == 0 && r.till != 0 && Unlimited(r) && NoneAtMost(es, r.till)
    ensures Scan(es, r, callback) == Reversed(es)
    ensures forall e :: e in Scan(es, r, callback) ==> Earlier(ID(r.till, 0), e.key)
  {
    UnlimitedScan(es, r, callback);
    FilterAll(Reversed(es), WindowOf(es, r));
    forall e | e in Reversed(es)
      ensures Earlier(ID(r.till, 0), e.key)
    {
      ReversedMembers(es, e);
    }
  }

  lemma {:induction false} FilterSame(es: seq<Entry>, w: Window, w': Window)
    requires forall i :: 0 <= i < |es| ==> (w.Accepts(es[i].key) <==> w'.Accepts(es[i].key))
    ensures Filter(es, w) == Filter(es, w')
  {
    if |es| > 0 {
      FilterSame(es[..|es| - 1], w, w');
    }
  }

  /** Without bounds and limits, the reverse scan is the forward scan read backwards, and both
      send the whole folder. */
  lemma WholeFolderMirror(es: seq<Entry>, r: RangeRequest, callback: Callback)
    requires Stored(es) && r.from == r.till == 0 && Unlimited(r)
    ensures Scan(es, r.(reverse := false), callback) == es
    ensures Scan(es, r.(reverse := true), callback) == Reversed(es)
  {
    UnlimitedScan(es, r.(reverse := false), callback);
    UnlimitedScan(es, r.(reverse := true), callback);
    FilterAll(es, Forward(0, 0));
    FilterAll(Reversed(es), Reverse(0, 0, true));
  }

  /** The entry under (till, 0), which only a reverse scan sends. */
  function Edge(es: seq<Entry>, r: RangeRequest): seq<Entry> {
    var at := FirstAtLeast(es, ID(r.till, 0));
    if at < |es| && es[at].key == ID(r.till, 0) && r.from < r.till then [es[at]] else []
  }

  lemma BelowEdge(es: seq<Entry>, r: RangeRequest, at: nat)
    requires Stored(es) && 2 <= r.till && r.from < TWO64 - 1 && at == FirstAtLeast(es, ID(r.till, 0))
    ensures Filter(es[..at], Reverse(r.from, r.till, false)) == Filter(es[..at], Forward(r.from + 1, r.till - 1))
  {
    var rev, fwd := Reverse(r.from, r.till, false), Forward(r.from + 1, r.till - 1);
    forall i | 0 <= i < at
      ensures rev.Accepts(es[i].key) <==> fwd.Accepts(es[i].key)
    {
      assert CompareIDs(es[i].key, ID(r.till, 0)) < 0;
    }
    FilterSame(es[..at], rev, fwd);
  }

  lemma AboveEdge(es: seq<Entry>, r: RangeRequest, at: nat)
    requires Stored(es) && 2 <= r.till && r.from < TWO64 - 1 && at == FirstAtLeast(es, ID(r.till, 0))
    ensures forall i :: at <= i < |es| ==> !Forward(r.from + 1, r.till - 1).Accepts(es[i].key)
    ensures forall i :: at < i < |es| ==> !Reverse(r.from, r.till, false).Accepts(es[i].key)
  {
    forall i | at <= i < |es|
      ensures es[i].key.timestamp >= r.till && (i > at ==> Earlier(ID(r.till, 0), es[i].key))
    {
      assert CompareIDs(es[at].key, ID(r.till, 0)) >= 0;
      assert i > at ==> Earlier(es[at].key, es[i].key);
    }
  }

  lemma FilterFirstOnly(es: seq<Entry>, w: Window)
    requires |es| > 0 && forall i :: 1 <= i < |es| ==> !w.Accepts(es[i].key)
    ensures Filter(es, w) == if w.Accepts(es[0].key) then [es[0]] else []
  {
  }

  lemma FilterParts(es: seq<Entry>, at: nat, w: Window)
    requires at <= |es|
    ensures Filter(es, w) == Filter(es[..at], w) + Filter(es[at..], w)
  {
    FilterAppend(es[..at], es[at..], w);
    assert es == es[..at] + es[at..];
  }

  lemma AtEdge(es: seq<Entry>, r: RangeRequest, at: nat)
    requires Stored(es) && 2 <= r.till && r.from < TWO64 - 1 && at == FirstAtLeast(es, ID(r.till, 0))
    ensures Filter(es[at..], Forward(r.from + 1, r.till - 1)) == []
    ensures Filter(es[at..], Reverse(r.from, r.till, false)) == Edge(es, r)
  {
    AboveEdge(es, r, at);
    FilterNone(es[at..], Forward(r.from + 1, r.till - 1));
    if at < |es| {
      FilterFirstOnly(es[at..], Reverse(r.from, r.till, false));
      assert es[at..][0] == es[at];
    }
  }

  /** The reverse window is the forward window one timestamp narrower at each end, plus the edge. */
  lemma WindowMirror(es: seq<Entry>, r: RangeRequest)
    requires Stored(es) && 2 <= r.till && r.from < TWO64 - 1
    ensures Filter(es, Reverse(r.from, r.till, false))
         == Filter(es, Forward(r.from + 1, r.till - 1)) + Edge(es, r)
  {
    var at := FirstAtLeast(es, ID(r.till, 0));
    FilterParts(es, at, Reverse(r.from, r.till, false));
    FilterParts(es, at, Forward(r.from + 1, r.till - 1));
    BelowEdge(es, r, at);
    AtEdge(es, r, at);
    var low := Filter(es[..at], Forward(r.from + 1, r.till - 1));
    assert low + [] == low;
  }

  function Narrowed(r: RangeRequest): RangeRequest
    requires 1 <= r.till && r.from < TWO64 - 1
  {
    r.(reverse := false, from := r.from + 1, till := r.till - 1)
  }

  lemma UnlimitedBounded(es: seq<Entry>, r: RangeRequest, callback: Callback)
    requires r.till != 0 && Unlimited(r)
    ensures BoundedReverse(es, r, callback) == Reversed(Filter(es, Reverse(r.from, r.till, false)))
  {
    CutUnlimited(r, callback, Filter(Reversed(es), Reverse(r.from, r.till, false)));
    FilterReversed(es, Reverse(r.from, r.till, false));
  }

  lemma BoundedMirror(es: seq<Entry>, r: RangeRequest, callback: Callback)
    requires Stored(es) && r.reverse && 2 <= r.till && r.from < TWO64 - 1 && Unlimited(r)
    ensures BoundedReverse(es, r, callback) == Edge(es, r) + Reversed(Scan(es, Narrowed(r), callback))
  {
    UnlimitedBounded(es, r, callback);
    UnlimitedScan(es, Narrowed(r), callback);
    WindowMirror(es, r);
    ReversedAppend(Scan(es, Narrowed(r), callback), Edge(es, r));
    assert Reversed(Edge(es, r)) == Edge(es, r);
  }

  /** Scan mirror: with till >= 2 and no limits, the reverse scan is the edge followed by the
      narrowed forward scan read backwards -- exactly when it does not fall back to the last key
      with something to send. */
  lemma ScanMirrorIff(es: seq<Entry>, r: RangeRequest, callback: Callback)
    requires Stored(es) && r.reverse && 2 <= r.till && r.from < TWO64 - 1 && Unlimited(r)
    ensures Scan(es, r, callback) == Edge(es, r) + Reversed(Scan(es, Narrowed(r), callback))
       <==> !NoneAtMost(es, r.till) || forall e :: e in es ==> r.from != 0 && e.key.timestamp <= r.from
  {
    BoundedMirror(es, r, callback);
    ReverseBoundIff(es, r, callback);
  }
}
