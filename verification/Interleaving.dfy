/** Concurrent saves into one folder: taking an id (`fetch_add`) and putting the entry are separate
    steps, and any number of threads may interleave them (src/DbClient.cpp, src/GRPCServer.cpp). */
module Interleaving {
  import opened Bytes
  import opened Keys
  import opened Folders
  import opened UniqueRanges
  import opened Store

  type Thread = nat

  datatype Action =
    | Take(thread: Thread, ts: u64, now: u64, data: Body)
    | Complete(thread: Thread)

  /** The folder, its counter, the entries whose put is outstanding, and what has been issued and
      put so far. */
  datatype Shared = Shared(es: seq<Entry>, counter: u64, pending: map<Thread, Entry>,
                           issued: seq<u64>, completed: seq<Entry>)

  predicate Enabled(s: Shared, a: Action) {
    match a
    case Take(thread, ts, now, _) => thread !in s.pending && EffectiveTs(ts, now) != 0
    case Complete(thread) => thread in s.pending
  }

  function Next(s: Shared, a: Action): Shared
    requires Enabled(s, a)
  {
    match a
    case Take(thread, ts, now, data) =>
      var id := ID(EffectiveTs(ts, now), s.counter);
      s.(counter := Increment(s.counter), issued := s.issued + [s.counter],
         pending := s.pending[thread := Entry(id, Data(id, data))])
    case Complete(thread) =>
      var e := s.pending[thread];
      s.(es := Insert(s.es, e), pending := s.pending - {thread}, completed := s.completed + [e])
  }

  predicate Schedule(s: Shared, actions: seq<Action>)
    decreases |actions|
  {
    |actions| == 0 || (Enabled(s, actions[0]) && Schedule(Next(s, actions[0]), actions[1..]))
  }

  function Final(s: Shared, actions: seq<Action>): Shared
    requires Schedule(s, actions)
    decreases |actions|
  {
    if |actions| == 0 then s else Final(Next(s, actions[0]), actions[1..])
  }

  /** The folder as another request left it, nothing outstanding. */
  function Begin(es: seq<Entry>, counter: u64): Shared {
    Shared(es, counter, map[], [], [])
  }

  /** Number u is stored, or is about to be. */
  ghost predicate Outstanding(s: Shared, u: int) {
    exists t :: t in s.pending && s.pending[t].key.unique == u
  }

  /** From first on, numbers are issued one by one, each once; each issued number is either stored or
      outstanding, never both, and no two entries or threads share one. */
  ghost predicate Inv(s: Shared, start: seq<Entry>, first: nat) {
    && Stored(s.es)
    && first + |s.issued| == s.counter
    && (forall i :: 0 <= i < |s.issued| ==> s.issued[i] == first + i)
    && |s.es| == |start| + |s.completed|
    && (forall e :: e in s.es <==> e in start || e in s.completed)
    && (forall e :: e in start ==> e.key.unique < first)
    && (forall e :: e in s.completed ==> first <= e.key.unique < s.counter)
    && (forall t :: t in s.pending ==> Fresh(s, first, t))
    && (forall t, t' :: t in s.pending && t' in s.pending && s.pending[t].key.unique == s.pending[t'].key.unique ==> t == t')
    && (forall u :: first <= u < s.counter ==> Carries(s.es, u) || Outstanding(s, u))
  }

  /** The entry thread t is about to put: its number is issued and not stored. */
  ghost predicate Fresh(s: Shared, first: nat, t: Thread)
    requires t in s.pending
  {
    var e := s.pending[t];
    && e.key.timestamp != 0 && e.value.id == e.key && first <= e.key.unique < s.counter
    && forall x :: x in s.es ==> x.key.unique != e.key.unique
  }

  lemma TakeKeeps(s: Shared, start: seq<Entry>, first: nat, a: Action)
    requires Inv(s, start, first) && a.Take? && Enabled(s, a) && s.counter + 1 < TWO64
    ensures Inv(Next(s, a), start, first)
  {
    var s' := Next(s, a);
    forall x | x in s.es
      ensures x.key.unique < s.counter
    {
    }
    forall t | t in s'.pending
      ensures Fresh(s', first, t)
    {
      assert t != a.thread ==> Fresh(s, first, t);
    }
    forall u | first <= u < s'.counter
      ensures Carries(s'.es, u) || Outstanding(s', u)
    {
      if u == s.counter {
        assert s'.pending[a.thread].key.unique == u;
      } else if Outstanding(s, u) {
        var t :| t in s.pending && s.pending[t].key.unique == u;
        assert t in s'.pending && s'.pending[t] == s.pending[t];
      }
    }
  }

  lemma CompleteKeeps(s: Shared, start: seq<Entry>, first: nat, a: Action)
    requires Inv(s, start, first) && a.Complete? && Enabled(s, a)
    ensures Inv(Next(s, a), start, first)
  {
    var s' := Next(s, a);
    var e := s.pending[a.thread];
    assert Fresh(s, first, a.thread);
    InsertKeepsStored(s.es, e);
    InsertMembers(s.es, e);
    forall t | t in s'.pending
      ensures Fresh(s', first, t)
    {
      assert Fresh(s, first, t);
    }
    forall u | first <= u < s'.counter
      ensures Carries(s'.es, u) || Outstanding(s', u)
    {
      if Carries(s.es, u) {
        var k :| 0 <= k < |s.es| && s.es[k].key.unique == u;
        CarriedBy(s'.es, s.es[k]);
      } else if u == e.key.unique {
        CarriedBy(s'.es, e);
      } else {
        var t :| t in s.pending && s.pending[t].key.unique == u;
        assert t in s'.pending;
      }
    }
  }

  lemma CarriedBy(es: seq<Entry>, e: Entry)
    requires e in es
    ensures Carries(es, e.key.unique)
  {
  }

  lemma {:induction false} ScheduleKeeps(s: Shared, start: seq<Entry>, first: nat, actions: seq<Action>)
    requires Inv(s, start, first) && Schedule(s, actions) && s.counter + |actions| < TWO64
    ensures Inv(Final(s, actions), start, first)
    decreases |actions|
  {
    if |actions| > 0 {
      if actions[0].Take? {
        TakeKeeps(s, start, first, actions[0]);
      } else {
        CompleteKeeps(s, start, first, actions[0]);
      }
      ScheduleKeeps(Next(s, actions[0]), start, first, actions[1..]);
    }
  }

  lemma {:induction false} ScheduleCounts(s: Shared, actions: seq<Action>)
    requires Schedule(s, actions)
    ensures |Final(s, actions).issued| + |Final(s, actions).completed| == |s.issued| + |s.completed| + |actions|
    decreases |actions|
  {
    if |actions| > 0 {
      ScheduleCounts(Next(s, actions[0]), actions[1..]);
    }
  }

  lemma {:induction false} PendingStays(s: Shared, between: seq<Action>, t: Thread)
    requires Schedule(s, between) && t in s.pending && forall i :: 0 <= i < |between| ==> between[i].thread != t
    ensures t in Final(s, between).pending && Final(s, between).pending[t] == s.pending[t]
    ensures Schedule(s, between + [Complete(t)])
    ensures Final(s, between + [Complete(t)]) == Next(Final(s, between), Complete(t))
    decreases |between|
  {
    if |between| == 0 {
      assert between + [Complete(t)] == [Complete(t)] && [Complete(t)][1..] == [];
      assert Schedule(Next(s, Complete(t)), []);
    } else {
      assert (between + [Complete(t)])[1..] == between[1..] + [Complete(t)];
      PendingStays(Next(s, between[0]), between[1..], t);
    }
  }

  /** Whatever other threads do between a thread's two steps, it stores its own data, under its own
      timestamp, or the clock's reading when it asked for none, and the number it took. */
  lemma StoresItsOwn(s: Shared, t: Thread, ts: u64, now: u64, data: Body, between: seq<Action>)
    requires t !in s.pending && (ts != 0 || now != 0) && forall i :: 0 <= i < |between| ==> between[i].thread != t
    requires Schedule(Next(s, Take(t, ts, now, data)), between)
    ensures var actions := [Take(t, ts, now, data)] + (between + [Complete(t)]);
            && Schedule(s, actions)
            && var completed, id := Final(s, actions).completed, ID(if ts != 0 then ts else now, s.counter);
               |completed| > 0 && completed[|completed| - 1] == Entry(id, Data(id, data))
  {
    var take := Take(t, ts, now, data);
    PendingStays(Next(s, take), between, t);
    assert ([take] + (between + [Complete(t)]))[1..] == between + [Complete(t)];
  }

  /** For every interleaving, with any timestamps: issued numbers are pairwise distinct; no put
      overwrites another, so the folder gains one entry per completed put and loses none; and a
      number issued but not stored belongs to a save that is still outstanding. It holds for every
      folder whose numbers are all below its counter, such as an empty one, or one that a lawful run
      has not reopened since its last save. */
  lemma InterleavingIsSafe(es: seq<Entry>, counter: u64, actions: seq<Action>)
    requires Stored(es) && forall e :: e in es ==> e.key.unique < counter
    requires Schedule(Begin(es, counter), actions) && counter + |actions| < TWO64
    ensures var s := Final(Begin(es, counter), actions);
            && (forall i, j :: 0 <= i < j < |s.issued| ==> s.issued[i] != s.issued[j])
            && (forall i :: 0 <= i < |s.issued| ==> s.issued[i] == counter + i)
            && |s.issued| + |s.completed| == |actions|
            && |s.es| == |es| + |s.completed|
            && (forall e :: e in s.es <==> e in es || e in s.completed)
            && (forall u :: counter <= u < s.counter ==> (Carries(s.es, u) <==> !Outstanding(s, u)))
  {
    var s0 := Begin(es, counter);
    ScheduleKeeps(s0, es, counter, actions);
    ScheduleCounts(s0, actions);
    var s := Final(s0, actions);
    forall u | counter <= u < s.counter && Outstanding(s, u)
      ensures !Carries(s.es, u)
    {
      var t :| t in s.pending && s.pending[t].key.unique == u;
      assert Fresh(s, counter, t);
    }
  }

  /** Threads k, k + 1, ... take ids until the number of the stored entry e comes up again; its
      taker then puts over e. */
  lemma {:induction false} Overwriting(s: Shared, e: Entry, k: nat) returns (actions: seq<Action>)
    requires Stored(s.es) && e in s.es && s.counter <= e.key.unique && e.key.unique + 1 < TWO64
    requires forall t :: t in s.pending ==> t < k
    ensures Schedule(s, actions) && |actions| == e.key.unique - s.counter + 2
    ensures |Final(s, actions).es| == |s.es| && |Final(s, actions).completed| == |s.completed| + 1
    decreases e.key.unique - s.counter
  {
    var take := Take(k, e.key.timestamp, 1, []);
    var s1 := Next(s, take);
    if s.counter == e.key.unique {
      var s2 := Next(s1, Complete(k));
      actions := [take, Complete(k)];
      assert actions[1..] == [Complete(k)] && actions[1..][1..] == [];
      assert Schedule(s2, []) && Schedule(s1, [Complete(k)]);
      assert Final(s1, [Complete(k)]) == Final(s2, []) == s2;
      InsertMembers(s.es, Entry(e.key, Data(e.key, [])));
    } else {
      var rest := Overwriting(s1, e, k + 1);
      actions := [take] + rest;
      assert actions[1..] == rest;
    }
  }

  ghost predicate NeverOverwrites(es: seq<Entry>, counter: u64) {
    forall actions: seq<Action> ::
      Schedule(Begin(es, counter), actions) && counter + |actions| < TWO64 ==>
        |Final(Begin(es, counter), actions).es| == |es| + |Final(Begin(es, counter), actions).completed|
  }

  /** Concurrent saves never overwrite, under any schedule and timestamps, exactly when every stored
      number is below the counter. A reopened non-empty folder does not meet this: its counter is the
      last stored number. */
  lemma InterleavingSafeIff(es: seq<Entry>, counter: u64)
    requires Stored(es) && forall e :: e in es ==> e.key.unique < TWO63
    ensures NeverOverwrites(es, counter) <==> forall e :: e in es ==> e.key.unique < counter
  {
    if forall e :: e in es ==> e.key.unique < counter {
      forall actions: seq<Action> | Schedule(Begin(es, counter), actions) && counter + |actions| < TWO64
        ensures |Final(Begin(es, counter), actions).es| == |es| + |Final(Begin(es, counter), actions).completed|
      {
        InterleavingIsSafe(es, counter, actions);
      }
    } else {
      var e :| e in es && e.key.unique >= counter;
      var actions := Overwriting(Begin(es, counter), e, 0);
      assert !NeverOverwrites(es, counter);
    }
  }

  /** Run without interruption, the two steps are the store's save. */
  lemma AtomicSave(s: State, folder: string, ts: u64, now: u64, data: Body)
    requires Keyed(s) && folder in s.families && EffectiveTs(ts, now) != 0
    ensures var actions := [Take(0, ts, now, data), Complete(0)];
            var start := Begin(s.families[folder], s.lastUnique[folder]);
            && Schedule(start, actions)
            && SaveTo(s, folder, ts, now, data)
            == State(s.families[folder := Final(start, actions).es], s.lastUnique[folder := Final(start, actions).counter])
  {
    var take, put := Take(0, ts, now, data), Complete(0);
    var s0 := Begin(s.families[folder], s.lastUnique[folder]);
    var s1 := Next(s0, take);
    var s2 := Next(s1, put);
    assert [take, put][1..] == [put] && [put][1..] == [];
    assert Schedule(s2, []) && Schedule(s1, [put]);
    assert Final(s1, [put]) == Final(s2, []) == s2;
  }
}
