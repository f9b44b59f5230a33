/** One folder (a RocksDB column family) as the database keeps it: entries sorted by the custom
    comparator. The database is an ordered map; its searches are bisections, so they rely on the
    comparator being consistent along the stored keys. */
module Folders {
  import opened Bytes
  import opened Keys
  import opened Options

  /** The stored message: the saved bytes and a copy of the id. */
  datatype Data = Data(id: ID, data: Body)
  datatype Entry = Entry(key: ID, value: Data)

  /** What a folder always satisfies: strictly sorted keys, none of them a wildcard, and every
      message labelled with its own key. */
  ghost predicate Stored(es: seq<Entry>) {
    && (forall i, j :: 0 <= i < j < |es| ==> Earlier(es[i].key, es[j].key))
    && (forall i :: 0 <= i < |es| ==> es[i].key.timestamp != 0 && es[i].value.id == es[i].key)
  }

  ghost predicate UniquesNeverDecrease(es: seq<Entry>) {
    forall i, j :: 0 <= i < j < |es| ==> es[i].key.unique <= es[j].key.unique
  }

  ghost predicate UniquesIncrease(es: seq<Entry>) {
    forall i, j :: 0 <= i < j < |es| ==> es[i].key.unique < es[j].key.unique
  }

  /** The database's requirement on a probe: comparing it with the keys in order gives
      "less", then "equal", then "greater". */
  ghost predicate Searchable(es: seq<Entry>, p: ID) {
    forall i, j :: 0 <= i < j < |es| ==> CompareIDs(es[i].key, p) <= CompareIDs(es[j].key, p)
  }

  lemma TimedProbeIsSearchable(es: seq<Entry>, p: ID)
    requires Stored(es) && p.timestamp != 0
    ensures Searchable(es, p)
  {
  }

  /** Every wildcard can be searched exactly when numbers never decrease along the key order. */
  lemma WildcardsSearchableIff(es: seq<Entry>)
    requires Stored(es)
    ensures UniquesNeverDecrease(es) <==> forall u: u64 :: Searchable(es, ID(0, u))
  {
    if forall u: u64 :: Searchable(es, ID(0, u)) {
      forall i, j | 0 <= i < j < |es|
        ensures es[i].key.unique <= es[j].key.unique
      {
        assert Searchable(es, ID(0, es[j].key.unique));
        assert CompareIDs(es[i].key, ID(0, es[j].key.unique)) <= CompareIDs(es[j].key, ID(0, es[j].key.unique));
      }
    }
  }

  ghost predicate AmongKeys(es: seq<Entry>, p: ID, k: ID) {
    k == p || exists i :: 0 <= i < |es| && es[i].key == k
  }

  ghost predicate LeqChain(a: ID, b: ID, c: ID) {
    CompareIDs(a, b) <= 0 && CompareIDs(b, c) <= 0
  }

  /** Keys and one probe, taken together, are ordered by the comparator. */
  ghost predicate TotalPreorder(es: seq<Entry>, p: ID) {
    && (forall a, b | AmongKeys(es, p, a) && AmongKeys(es, p, b) :: CompareIDs(a, b) <= 0 || CompareIDs(b, a) <= 0)
    && (forall a, b, c | AmongKeys(es, p, a) && AmongKeys(es, p, b) && AmongKeys(es, p, c) && LeqChain(a, b, c) ::
          CompareIDs(a, c) <= 0)
  }

  /** Among stored keys with increasing numbers, the key order is the order of the numbers. */
  lemma KeysFollowNumbers(es: seq<Entry>, p: ID, a: ID, b: ID)
    requires Stored(es) && UniquesIncrease(es)
    requires AmongKeys(es, p, a) && AmongKeys(es, p, b) && a != p && b != p
    ensures CompareIDs(a, b) <= 0 <==> a.unique <= b.unique
  {
  }

  /** The comparator orders the stored keys together with any wildcard exactly when the numbers
      strictly increase along the key order. A repeated number already breaks it: both holders
      equal the wildcard without equalling each other. */
  lemma WildcardPreorderIff(es: seq<Entry>)
    requires Stored(es)
    ensures UniquesIncrease(es) <==> forall u: u64 :: TotalPreorder(es, ID(0, u))
  {
    if UniquesIncrease(es) {
      forall u: u64
        ensures TotalPreorder(es, ID(0, u))
      {
        WildcardPreorder(es, ID(0, u));
      }
    } else {
      var i, j :| 0 <= i < j < |es| && es[i].key.unique >= es[j].key.unique;
      var p := ID(0, es[j].key.unique);
      assert Earlier(es[i].key, es[j].key);
      assert AmongKeys(es, p, es[i].key) && AmongKeys(es, p, es[j].key) && AmongKeys(es, p, p);
      if es[i].key.unique > es[j].key.unique {
        assert LeqChain(es[i].key, es[j].key, p);
      } else {
        assert LeqChain(es[j].key, p, es[i].key);
      }
      assert !TotalPreorder(es, p);
    }
  }

  lemma WildcardPreorder(es: seq<Entry>, p: ID)
    requires Stored(es) && UniquesIncrease(es) && p.timestamp == 0
    ensures TotalPreorder(es, p)
  {
    forall a, b, c | AmongKeys(es, p, a) && AmongKeys(es, p, b) && AmongKeys(es, p, c) && LeqChain(a, b, c)
      ensures CompareIDs(a, c) <= 0
    {
      if a != p && b != p { KeysFollowNumbers(es, p, a, b); }
      if b != p && c != p { KeysFollowNumbers(es, p, b, c); }
      if a != p && c != p { KeysFollowNumbers(es, p, a, c); }
    }
  }

  // ----- linear-scan meaning of the searches -----

  /** Position of the last key <= p, or -1. */
  function LastAtMost(es: seq<Entry>, p: ID): (r: int)
    ensures -1 <= r < |es|
    ensures r >= 0 ==> CompareIDs(es[r].key, p) <= 0
    ensures forall k :: r < k < |es| ==> CompareIDs(es[k].key, p) > 0
  {
    if |es| == 0 then -1
    else if CompareIDs(es[|es| - 1].key, p) <= 0 then |es| - 1
    else LastAtMost(es[..|es| - 1], p)
  }

  /** Position of the first key >= p, or the length. */
  function FirstAtLeast(es: seq<Entry>, p: ID): (r: nat)
    ensures r <= |es|
    ensures r < |es| ==> CompareIDs(es[r].key, p) >= 0
    ensures forall k :: 0 <= k < r ==> CompareIDs(es[k].key, p) < 0
  {
    if |es| == 0 then 0
    else if CompareIDs(es[0].key, p) >= 0 then 0
    else
      var r := FirstAtLeast(es[1..], p);
      assert forall k :: 0 < k < r + 1 ==> es[k] == es[1..][k - 1];
      r + 1
  }

  /** e is the first entry whose key equals p. */
  ghost predicate FirstEqual(es: seq<Entry>, p: ID, e: Entry) {
    exists k :: 0 <= k < |es| && es[k] == e && CompareIDs(es[k].key, p) == 0
                && forall m :: 0 <= m < k ==> CompareIDs(es[m].key, p) != 0
  }

  lemma FirstEqualLater(es: seq<Entry>, p: ID, e: Entry)
    requires |es| > 0 && CompareIDs(es[0].key, p) != 0 && FirstEqual(es[1..], p, e)
    ensures FirstEqual(es, p, e)
  {
    var rest := es[1..];
    var k :| 0 <= k < |rest| && rest[k] == e && CompareIDs(rest[k].key, p) == 0
             && forall m :: 0 <= m < k ==> CompareIDs(rest[m].key, p) != 0;
    assert es[k + 1] == e;
    assert forall m :: 0 < m < k + 1 ==> es[m] == rest[m - 1];
  }

  /** The first entry whose key the comparator calls equal to p, found by looking at all of them. */
  function Lookup(es: seq<Entry>, p: ID): (r: Option<Entry>)
    ensures r.None? <==> forall k :: 0 <= k < |es| ==> CompareIDs(es[k].key, p) != 0
    ensures r.Some? ==> FirstEqual(es, p, r.value)
  {
    if |es| == 0 then None
    else if CompareIDs(es[0].key, p) == 0 then Some(es[0])
    else
      var r := Lookup(es[1..], p);
      assert forall k :: 0 < k < |es| ==> es[k] == es[1..][k - 1];
      if r.Some? then FirstEqualLater(es, p, r.value); r else r
  }

  // ----- the database's own searches, by bisection -----

  method SeekLastAtMost(es: seq<Entry>, p: ID) returns (r: int)
    ensures -1 <= r < |es| && (r >= 0 ==> CompareIDs(es[r].key, p) <= 0)
    ensures Searchable(es, p) ==> r == LastAtMost(es, p)
  {
    var lo, hi := 0, |es|;
    while lo < hi
      invariant 0 <= lo <= hi <= |es|
      invariant lo > 0 ==> CompareIDs(es[lo - 1].key, p) <= 0
      invariant Searchable(es, p) ==> forall k :: hi <= k < |es| ==> CompareIDs(es[k].key, p) > 0
    {
      var mid := lo + (hi - lo) / 2;
      if CompareIDs(es[mid].key, p) <= 0 {
        lo := mid + 1;
      } else {
        hi := mid;
      }
    }
    r := lo - 1;
  }

  method SeekFirstAtLeast(es: seq<Entry>, p: ID) returns (r: nat)
    ensures r <= |es| && (r < |es| ==> CompareIDs(es[r].key, p) >= 0)
    ensures Searchable(es, p) ==> r == FirstAtLeast(es, p)
  {
    var lo, hi := 0, |es|;
    while lo < hi
      invariant 0 <= lo <= hi <= |es|
      invariant Searchable(es, p) ==> forall k :: 0 <= k < lo ==> CompareIDs(es[k].key, p) < 0
      invariant hi < |es| ==> CompareIDs(es[hi].key, p) >= 0
    {
      var mid := lo + (hi - lo) / 2;
      if CompareIDs(es[mid].key, p) >= 0 {
        hi := mid;
      } else {
        lo := mid + 1;
      }
    }
    r := lo;
  }

  /** The database's point read: seek to the first key >= p, then ask whether it is equal. Whatever
      the folder, it returns nothing but an entry whose key equals p. */
  method Find(es: seq<Entry>, p: ID) returns (r: Option<Entry>)
    ensures r.Some? ==> r.value in es && CompareIDs(r.value.key, p) == 0
    ensures Searchable(es, p) ==> r == Lookup(es, p)
  {
    var at := SeekFirstAtLeast(es, p);
    if at < |es| && CompareIDs(es[at].key, p) == 0 {
      r := Some(es[at]);
    } else {
      r := None;
    }
  }

  /** A wildcard read finds an entry exactly when some entry carries the number, and then the
      earliest such entry. */
  lemma WildcardLookup(es: seq<Entry>, u: u64)
    requires Stored(es)
    ensures Lookup(es, ID(0, u)).Some? <==> exists k :: 0 <= k < |es| && es[k].key.unique == u
    ensures forall k :: 0 <= k < |es| && es[k].key.unique == u && (forall m :: 0 <= m < k ==> es[m].key.unique != u)
                        ==> Lookup(es, ID(0, u)) == Some(es[k])
  {
    forall k | 0 <= k < |es|
      ensures CompareIDs(es[k].key, ID(0, u)) == 0 <==> es[k].key.unique == u
    {
    }
  }

  /** A read by full id finds exactly the entry stored under that id. */
  lemma KeyLookup(es: seq<Entry>, k: ID)
    requires Stored(es) && k.timestamp != 0
    ensures forall e :: Lookup(es, k) == Some(e) <==> e in es && e.key == k
  {
  }

  // ----- writing -----

  /** What a put leaves behind: everything earlier, the new entry, everything later; an entry under
      an equal key is replaced. */
  function Insert(es: seq<Entry>, e: Entry): seq<Entry> {
    var at := FirstAtLeast(es, e.key);
    if at < |es| && CompareIDs(es[at].key, e.key) == 0 then es[at := e] else es[..at] + [e] + es[at..]
  }

  /** Around the place of insertion. */
  lemma InsertPlace(es: seq<Entry>, e: Entry)
    requires Stored(es) && e.key.timestamp != 0
    ensures var at := FirstAtLeast(es, e.key);
            && (forall k :: 0 <= k < at ==> Earlier(es[k].key, e.key))
            && (forall k :: at < k < |es| ==> Earlier(e.key, es[k].key))
            && (at < |es| && CompareIDs(es[at].key, e.key) != 0 ==> Earlier(e.key, es[at].key))
  {
    var at := FirstAtLeast(es, e.key);
    forall k | at < k < |es|
      ensures Earlier(e.key, es[k].key)
    {
      assert Earlier(es[at].key, es[k].key);
    }
  }

  /** A put keeps the folder sorted and labelled. */
  lemma InsertKeepsStored(es: seq<Entry>, e: Entry)
    requires Stored(es) && e.key.timestamp != 0 && e.value.id == e.key
    ensures Stored(Insert(es, e))
  {
    InsertPlace(es, e);
  }

  lemma InsertMembers(es: seq<Entry>, e: Entry)
    requires Stored(es) && e.key.timestamp != 0
    ensures forall x :: x in Insert(es, e) <==> x == e || (x in es && x.key != e.key)
    ensures |Insert(es, e)| == |es| + (if exists x :: x in es && x.key == e.key then 0 else 1)
  {
    var at := FirstAtLeast(es, e.key);
    var out := Insert(es, e);
    forall k | 0 <= k < |es|
      ensures es[k].key == e.key <==> k == at && CompareIDs(es[at].key, e.key) == 0
    {
      if at < k { assert Earlier(es[at].key, es[k].key); }
    }
    if at < |es| && CompareIDs(es[at].key, e.key) == 0 {
      assert es[at] in es;
      forall x ensures x in out <==> x == e || (x in es && x.key != e.key) {
        if x in es && x.key != e.key {
          var k :| 0 <= k < |es| && es[k] == x;
          assert out[k] == x;
        }
        if x in out {
          var k :| 0 <= k < |out| && out[k] == x;
          assert k != at ==> es[k] == x;
        }
        assert out[at] == e;
      }
    } else {
      forall x ensures x in out <==> x == e || x in es {
        assert es == es[..at] + es[at..];
      }
    }
  }

  method PutEntry(es: seq<Entry>, e: Entry) returns (out: seq<Entry>)
    requires Stored(es) && e.key.timestamp != 0
    ensures out == Insert(es, e)
  {
    TimedProbeIsSearchable(es, e.key);
    var at := SeekFirstAtLeast(es, e.key);
    if at < |es| && CompareIDs(es[at].key, e.key) == 0 {
      out := es[at := e];
    } else {
      out := es[..at] + [e] + es[at..];
    }
  }

  // ----- iterators -----

  /** A RocksDB iterator: a cursor into a snapshot of the folder. */
  class Cursor {
    const es: seq<Entry>
    var pos: int

    constructor (es: seq<Entry>)
      ensures this.es == es && !Valid()
    {
      this.es := es;
      pos := -1;
    }

    predicate Valid() reads this {
      0 <= pos < |es|
    }

    function Current(): Entry
      requires Valid()
      reads this
    {
      es[pos]
    }

    method SeekToFirst()
      modifies this
      ensures pos == 0
    {
      pos := 0;
    }

    method SeekToLast()
      modifies this
      ensures pos == |es| - 1
    {
      pos := |es| - 1;
    }

    method SeekForPrev(p: ID)
      modifies this
      ensures -1 <= pos < |es| && (pos >= 0 ==> CompareIDs(es[pos].key, p) <= 0)
      ensures Searchable(es, p) ==> pos == LastAtMost(es, p)
    {
      pos := SeekLastAtMost(es, p);
    }

    method Next()
      requires Valid()
      modifies this
      ensures pos == old(pos) + 1
    {
      pos := pos + 1;
    }

    method Prev()
      requires Valid()
      modifies this
      ensures pos == old(pos) - 1
    {
      pos := pos - 1;
    }
  }
}
