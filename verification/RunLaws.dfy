/** What whole runs guarantee: the folder is the log of its saves, numbers are dense, saves can be
    read back, and every total subsample finds stored messages. */
module RunLaws {
  import opened Bytes
  import opened Keys
  import opened Options
  import opened Folders
  import opened UniqueRanges
  import opened Sampling
  import opened Store
  import opened Runs

  /** A run from an empty disk, short of exhausting the counter and disciplined for folder f. */
  predicate Lawful(events: seq<Event>, f: string) {
    |events| < TWO64 && Disciplined(NO_HISTORY, events, f)
  }

  lemma FreshIsOk(f: string)
    ensures Aligned(FRESH, NO_HISTORY) && (f in NO_HISTORY ==> FolderOk(FRESH, NO_HISTORY, f, 0))
    ensures EntriesOf(FRESH, f) == []
  {
  }

  ghost function After(events: seq<Event>): State {
    Run(FRESH, events)
  }

  /** In every lawful run each folder stays strictly sorted, its numbers start at 0 and move by 0 or
      1, its counter is the last number or one past it, and every number of the total range is
      carried by some entry. */
  lemma RunInvariant(events: seq<Event>, f: string)
    requires Lawful(events, f) && f in After(events).families
    ensures var es := After(events).families[f];
            && Stored(es) && Dense(es) && f in After(events).lastUnique
            && CounterFits(es, After(events).lastUnique[f])
            && (|es| > 0 ==> es[|es| - 1].key.unique < |events|)
            && (|es| > 0 ==> forall u :: TotalRange(es).from <= u <= TotalRange(es).till <==> Carries(es, u))
  {
    FreshIsOk(f);
    RunKeeps(FRESH, NO_HISTORY, 0, events, f);
    if |After(events).families[f]| > 0 {
      TotalRangeIsCarried(After(events).families[f]);
    }
  }

  // ----- the folder is the log of its saves -----

  /** What callers asked to save into f, in the order they asked: no state involved. */
  function Timeline(events: seq<Event>, f: string): seq<(u64, Body)>
    decreases |events|
  {
    if |events| == 0 then []
    else
      Asked(events[0], f) + Timeline(events[1..], f)
  }

  function Asked(e: Event, f: string): seq<(u64, Body)> {
    if e.Save? && e.folder == f then [(EffectiveTs(e.ts, e.now), e.data)] else []
  }

  function Contents(es: seq<Entry>): (c: seq<(u64, Body)>)
    ensures |c| == |es|
  {
    seq(|es|, i requires 0 <= i < |es| => (es[i].key.timestamp, es[i].value.data))
  }

  lemma {:induction false} AddedIsTimeline(s: State, events: seq<Event>, f: string)
    requires Keyed(s)
    ensures Contents(AddedAll(s, events, f)) == Timeline(events, f)
    decreases |events|
  {
    if |events| > 0 {
      AddedIsTimeline(Apply(s, events[0]), events[1..], f);
      ContentsAppend(Added(s, events[0], f), AddedAll(Apply(s, events[0]), events[1..], f));
      AddedIsAsked(s, events[0], f);
    }
  }

  lemma ContentsAppend(a: seq<Entry>, b: seq<Entry>)
    ensures Contents(a + b) == Contents(a) + Contents(b)
  {
  }

  lemma AddedIsAsked(s: State, e: Event, f: string)
    ensures Contents(Added(s, e, f)) == Asked(e, f)
  {
  }

  lemma LawfulIsTimeline(events: seq<Event>, f: string)
    requires Lawful(events, f)
    ensures Contents(EntriesOf(After(events), f)) == Timeline(events, f)
  {
    FreshIsOk(f);
    RunAppends(FRESH, NO_HISTORY, 0, events, f);
    AddedIsTimeline(FRESH, events, f);
    assert EntriesOf(After(events), f) == AddedAll(FRESH, events, f);
  }

  /** Every save into f carries or is given a nonzero timestamp. */
  predicate Timed(events: seq<Event>, f: string)
    decreases |events|
  {
    |events| == 0 || (TimedEvent(events[0], f) && Timed(events[1..], f))
  }

  predicate TimedEvent(e: Event, f: string) {
    e.Save? && e.folder == f ==> EffectiveTs(e.ts, e.now) != 0
  }

  /** In time or not, an event keeps f sorted and adds at most the entry asked for. */
  lemma TimedStep(s: State, e: Event, f: string)
    requires Keyed(s) && Stored(EntriesOf(s, f)) && TimedEvent(e, f)
    ensures Stored(EntriesOf(Apply(s, e), f))
    ensures |EntriesOf(Apply(s, e), f)| <= |EntriesOf(s, f)| + |Asked(e, f)|
  {
    if e.Save? && f in GetOrCreate(s, e.folder).families {
      SaveLands(s, e.folder, e.ts, e.now, e.data, f);
      if e.folder == f {
        var id := NextId(s, f, e.ts, e.now);
        InsertKeepsStored(EntriesOf(s, f), Entry(id, Data(id, e.data)));
        InsertMembers(EntriesOf(s, f), Entry(id, Data(id, e.data)));
      }
    }
  }

  lemma {:induction false} TimedRun(s: State, events: seq<Event>, f: string)
    requires Keyed(s) && Stored(EntriesOf(s, f)) && Timed(events, f)
    ensures Stored(EntriesOf(Run(s, events), f))
    ensures |EntriesOf(Run(s, events), f)| <= |EntriesOf(s, f)| + |Timeline(events, f)|
    decreases |events|
  {
    if |events| > 0 {
      TimedStep(s, events[0], f);
      TimedRun(Apply(s, events[0]), events[1..], f);
    }
  }

  /** A save at the last timestamp after a reopen comes under the last key and replaces it: from then
      on the folder is one entry short. */
  lemma TieLoses(s: State, h: History, n: nat, events: seq<Event>, f: string)
    requires |events| > 0 && Aligned(s, h) && f in h && FolderOk(s, h, f, n) && Timed(events, f)
    requires events[0].Save? && events[0].folder == f && h[f].reopened
    requires h[f].last == Some(EffectiveTs(events[0].ts, events[0].now))
    ensures |EntriesOf(Run(s, events), f)| < |EntriesOf(s, f)| + |Timeline(events, f)|
  {
    var e, es := events[0], EntriesOf(s, f);
    var id := NextId(s, f, e.ts, e.now);
    SaveLands(s, f, e.ts, e.now, e.data, f);
    assert es[|es| - 1] in es && es[|es| - 1].key == id;
    InsertMembers(es, Entry(id, Data(id, e.data)));
    TimedStep(s, e, f);
    TimedRun(Apply(s, e), events[1..], f);
  }

  /** A timeline that goes back in time is no sorted folder. */
  lemma OutOfOrder(es: seq<Entry>, before: seq<Entry>, t: u64, data: Body, rest: seq<(u64, Body)>)
    requires Stored(es) && |before| > 0 && t < before[|before| - 1].key.timestamp
    ensures Contents(es) != Contents(before) + ([(t, data)] + rest)
  {
    var n := |before|;
    var all := Contents(before) + ([(t, data)] + rest);
    assert all[n - 1].0 == before[n - 1].key.timestamp && all[n].0 == t;
    assert |es| > n ==> Contents(es)[n - 1].0 <= Contents(es)[n].0 by {
      assert |es| > n ==> Earlier(es[n - 1].key, es[n].key);
    }
  }

  /** If a run leaves f with exactly its saves, no save into f came out of time. */
  lemma {:induction false} TimelineIsDisciplined(s: State, h: History, n: nat, events: seq<Event>, f: string)
    requires Aligned(s, h) && (f in h ==> FolderOk(s, h, f, n)) && n + |events| < TWO64 && Timed(events, f)
    requires Contents(EntriesOf(Run(s, events), f)) == Contents(EntriesOf(s, f)) + Timeline(events, f)
    ensures Disciplined(h, events, f)
    decreases |events|
  {
    if |events| > 0 {
      var e, rest := events[0], events[1..];
      if InTime(h, e, f) {
        FolderStep(s, h, n, e, f);
        AlignedStep(s, h, e);
        ContentsGrow(s, e, f, Timeline(rest, f));
        TimelineIsDisciplined(Apply(s, e), Record(h, e), n + 1, rest, f);
      } else {
        OffendingSave(s, h, n, events, f);
      }
    }
  }

  lemma ContentsGrow(s: State, e: Event, f: string, rest: seq<(u64, Body)>)
    requires Keyed(s) && EntriesOf(Apply(s, e), f) == EntriesOf(s, f) + Added(s, e, f)
    ensures Contents(EntriesOf(s, f)) + (Asked(e, f) + rest) == Contents(EntriesOf(Apply(s, e), f)) + rest
  {
    ContentsAppend(EntriesOf(s, f), Added(s, e, f));
    AddedIsAsked(s, e, f);
  }

  lemma OffendingSave(s: State, h: History, n: nat, events: seq<Event>, f: string)
    requires |events| > 0 && Aligned(s, h) && (f in h ==> FolderOk(s, h, f, n)) && Timed(events, f)
    requires !InTime(h, events[0], f)
    ensures Contents(EntriesOf(Run(s, events), f)) != Contents(EntriesOf(s, f)) + Timeline(events, f)
  {
    var e, es := events[0], EntriesOf(s, f);
    var t := EffectiveTs(e.ts, e.now);
    TimedRun(s, events, f);
    if t == es[|es| - 1].key.timestamp {
      TieLoses(s, h, n, events, f);
    } else {
      OutOfOrder(EntriesOf(Run(s, events), f), es, t, e.data, Timeline(events[1..], f));
    }
  }

  /** After a run a folder holds exactly its saves, in order -- nothing lost, overwritten, reordered or
      invented, whatever folders are created and however often the store restarts -- exactly when
      the saves into it are disciplined. */
  lemma FolderIsTimeline(events: seq<Event>, f: string)
    requires |events| < TWO64 && Timed(events, f)
    ensures Contents(EntriesOf(After(events), f)) == Timeline(events, f) <==> Disciplined(NO_HISTORY, events, f)
  {
    if Disciplined(NO_HISTORY, events, f) {
      LawfulIsTimeline(events, f);
    } else if Contents(EntriesOf(After(events), f)) == Timeline(events, f) {
      FreshIsOk(f);
      assert Contents(EntriesOf(FRESH, f)) + Timeline(events, f) == Timeline(events, f);
      TimelineIsDisciplined(FRESH, NO_HISTORY, 0, events, f);
    }
  }

  // ----- which timestamps a folder's entries carry -----

  /** The save requests for f, in the order they came. */
  function SavesInto(events: seq<Event>, f: string): (saves: seq<Event>)
    ensures forall i :: 0 <= i < |saves| ==> saves[i].Save?
    decreases |events|
  {
    if |events| == 0 then []
    else (if events[0].Save? && events[0].folder == f then [events[0]] else []) + SavesInto(events[1..], f)
  }

  lemma {:induction false} TimelineOfSaves(events: seq<Event>, f: string)
    ensures |Timeline(events, f)| == |SavesInto(events, f)|
    ensures forall i :: 0 <= i < |Timeline(events, f)| ==>
              && SavesInto(events, f)[i].data == Timeline(events, f)[i].1
              && (SavesInto(events, f)[i].ts != 0 ==> Timeline(events, f)[i].0 == SavesInto(events, f)[i].ts)
              && (SavesInto(events, f)[i].ts == 0 ==> Timeline(events, f)[i].0 == SavesInto(events, f)[i].now)
    decreases |events|
  {
    if |events| > 0 {
      TimelineOfSaves(events[1..], f);
    }
  }

  /** After a lawful run the i-th entry of a folder is what the i-th save request for it asked for:
      its data under its own timestamp if it had one, else under the clock's. */
  lemma EntriesAreRequests(events: seq<Event>, f: string)
    requires Lawful(events, f)
    ensures |EntriesOf(After(events), f)| == |SavesInto(events, f)|
    ensures forall i :: 0 <= i < |SavesInto(events, f)| ==>
              && EntriesOf(After(events), f)[i].value.data == SavesInto(events, f)[i].data
              && (SavesInto(events, f)[i].ts != 0 ==>
                    EntriesOf(After(events), f)[i].key.timestamp == SavesInto(events, f)[i].ts)
              && (SavesInto(events, f)[i].ts == 0 ==>
                    EntriesOf(After(events), f)[i].key.timestamp == SavesInto(events, f)[i].now)
  {
    var es := EntriesOf(After(events), f);
    LawfulIsTimeline(events, f);
    TimelineOfSaves(events, f);
    forall i | 0 <= i < |es|
      ensures (es[i].key.timestamp, es[i].value.data) == Timeline(events, f)[i]
    {
      assert Contents(es)[i] == (es[i].key.timestamp, es[i].value.data);
    }
  }

  /** The same request at another clock reading, which must not matter if it goes to f. */
  predicate SameButClock(e: Event, e': Event, f: string) {
    match e
    case Save(folder, ts, _, data) =>
      e'.Save? && e'.folder == folder && e'.ts == ts && e'.data == data && (folder == f && ts == 0 ==> e'.now == e.now)
    case _ => e' == e
  }

  /** f looks the same in both states, and the same folders exist. */
  predicate SameFolder(s: State, s': State, f: string) {
    && Keyed(s) && Keyed(s') && s.families.Keys == s'.families.Keys
    && (f in s.families ==> s.families[f] == s'.families[f] && s.lastUnique[f] == s'.lastUnique[f])
  }

  lemma SameCreated(s: State, s': State, name: string, f: string)
    requires SameFolder(s, s', f)
    ensures SameFolder(GetOrCreate(s, name), GetOrCreate(s', name), f)
  {
  }

  lemma SameStep(s: State, s': State, e: Event, e': Event, f: string)
    requires SameFolder(s, s', f) && SameButClock(e, e', f)
    ensures SameFolder(Apply(s, e), Apply(s', e'), f)
  {
    if e.Save? {
      SameCreated(s, s', e.folder, f);
      if f in GetOrCreate(s, e.folder).families {
        SaveLands(s, e.folder, e.ts, e.now, e.data, f);
        SaveLands(s', e'.folder, e'.ts, e'.now, e'.data, f);
      }
    }
  }

  /** Lawful or not, a run leaves f the same whatever the clock reads at saves that bring their own
      timestamp and at saves into other folders. */
  lemma {:induction false} ClockIndependent(s: State, s': State, events: seq<Event>, events': seq<Event>, f: string)
    requires SameFolder(s, s', f) && |events| == |events'|
    requires forall i :: 0 <= i < |events| ==> SameButClock(events[i], events'[i], f)
    ensures SameFolder(Run(s, events), Run(s', events'), f)
    decreases |events|
  {
    if |events| > 0 {
      SameStep(s, s', events[0], events'[0], f);
      ClockIndependent(Apply(s, events[0]), Apply(s', events'[0]), events[1..], events'[1..], f);
    }
  }

  lemma ClockDoesNotMatter(events: seq<Event>, events': seq<Event>, f: string)
    requires |events| == |events'|
    requires forall i :: 0 <= i < |events| ==> SameButClock(events[i], events'[i], f)
    ensures EntriesOf(After(events), f) == EntriesOf(After(events'), f)
  {
    ClockIndependent(FRESH, FRESH, events, events', f);
  }

  // ----- reading back -----

  lemma {:induction false} RunSplit(s: State, h: History, a: seq<Event>, b: seq<Event>, f: string)
    requires Keyed(s)
    ensures Run(s, a + b) == Run(Run(s, a), b)
    ensures RecordAll(h, a + b) == RecordAll(RecordAll(h, a), b)
    ensures Disciplined(h, a + b, f) <==> Disciplined(h, a, f) && Disciplined(RecordAll(h, a), b, f)
    decreases |a|
  {
    if |a| == 0 {
      assert a + b == b;
    } else {
      assert (a + b)[1..] == a[1..] + b;
      RunSplit(Apply(s, a[0]), Record(h, a[0]), a[1..], b, f);
    }
  }

  /** Every id a save returned reads back that save's message, at any later point of a lawful run. */
  lemma ReadYourWrites(before: seq<Event>, save: Event, after: seq<Event>)
    requires save.Save? && Lawful(before + ([save] + after), save.folder)
    ensures var id := NextId(After(before), save.folder, save.ts, save.now);
            && ReadFrom(After(before + ([save] + after)), save.folder, id) == Found(Data(id, save.data))
            && (save.ts != 0 ==> id.timestamp == save.ts) && (save.ts == 0 ==> id.timestamp == save.now)
  {
    var f := save.folder;
    var rest := [save] + after;
    var s, h := After(before), RecordAll(NO_HISTORY, before);
    FreshIsOk(f);
    RunSplit(FRESH, NO_HISTORY, before, rest, f);
    RunKeeps(FRESH, NO_HISTORY, 0, before, f);
    RunKeeps(FRESH, NO_HISTORY, 0, before + rest, f);
    RunAppends(s, h, |before|, rest, f);
    var id := NextId(s, f, save.ts, save.now);
    var e := Entry(id, Data(id, save.data));
    assert rest[0] == save && rest[1..] == after;
    assert e in Added(s, save, f);
    assert e in AddedAll(s, rest, f);
    var es := EntriesOf(After(before + rest), f);
    assert e in es;
    KeyLookup(es, id);
  }

  // ----- reopening -----

  /** Creating another folder reopens the store. In a lawful run this leaves every entry alone and
      moves a counter back by one if its folder was saved to since the last reopen, and not at all
      otherwise; so the only stored number it can issue again is the last key's. */
  lemma ReopenDrift(events: seq<Event>, f: string, name: string)
    requires Lawful(events, f) && f in After(events).families && name !in After(events).families
    ensures var s, s' := After(events), GetOrCreate(After(events), name);
            && f in s.lastUnique && f in RecordAll(NO_HISTORY, events)
            && f in s'.families && s'.families[f] == s.families[f] && f in s'.lastUnique
            && var es := s.families[f];
               var before: int, after: int := s.lastUnique[f], s'.lastUnique[f];
               && before - after == (if |es| > 0 && !RecordAll(NO_HISTORY, events)[f].reopened then 1 else 0)
               && forall x :: x in es && x.key.unique == s'.lastUnique[f] ==> x.key.unique == es[|es| - 1].key.unique
  {
    FreshIsOk(f);
    RunKeeps(FRESH, NO_HISTORY, 0, events, f);
  }

  /** Lawful or not, a restart and the creation of another folder keep every entry and set every counter
      to the number of the last key, even where an earlier key has a larger one. */
  lemma ReopensAtLast(events: seq<Event>, f: string, name: string)
    requires f in After(events).families && name !in After(events).families
    ensures var s := After(events);
            forall e :: e in [Restart, CreateFolder(name)] ==>
              && f in Apply(s, e).families && Apply(s, e).families[f] == s.families[f]
              && f in Apply(s, e).lastUnique && Apply(s, e).lastUnique[f] == LastNumber(s.families[f])
  {
  }

  /** Numbers in use in a dense folder: 0 up to the last one. */
  function Used(es: seq<Entry>): nat {
    if |es| == 0 then 0 else es[|es| - 1].key.unique + 1
  }

  /** Saves into f that were the first since a reopen, though not the folder's first. */
  function StaleSaves(h: History, events: seq<Event>, f: string): nat
    decreases |events|
  {
    if |events| == 0 then 0
    else Stale(h, events[0], f) + StaleSaves(Record(h, events[0]), events[1..], f)
  }

  function Stale(h: History, e: Event, f: string): nat {
    if e.Save? && e.folder == f && f in h && h[f].last.Some? && h[f].reopened then 1 else 0
  }

  /** Entries beyond the numbers in use. */
  function Surplus(es: seq<Entry>): int {
    |es| - Used(es)
  }

  lemma SurplusAppend(es: seq<Entry>, e: Entry)
    ensures Surplus(es + [e]) == |es| - e.key.unique
  {
  }

  lemma FirstSaveNumber(s: State, h: History, n: nat, f: string, ts: u64, now: u64)
    requires Aligned(s, h) && (f in h ==> FolderOk(s, h, f, n)) && EntriesOf(s, f) == []
    ensures NextId(s, f, ts, now).unique == 0 && (f in h ==> h[f].last.None?)
  {
  }

  lemma LaterSaveNumber(s: State, h: History, n: nat, f: string, ts: u64, now: u64)
    requires Aligned(s, h) && f in h && FolderOk(s, h, f, n) && EntriesOf(s, f) != []
    ensures NextId(s, f, ts, now).unique == Used(EntriesOf(s, f)) - (if h[f].reopened then 1 else 0)
    ensures h[f].last.Some?
  {
  }

  lemma OwnSaveSurplus(s: State, h: History, n: nat, e: Event, f: string)
    requires Aligned(s, h) && (f in h ==> FolderOk(s, h, f, n)) && e.Save? && e.folder == f
    ensures Surplus(EntriesOf(s, f) + Added(s, e, f)) == Surplus(EntriesOf(s, f)) + Stale(h, e, f)
  {
    SurplusAppend(EntriesOf(s, f), Added(s, e, f)[0]);
    if EntriesOf(s, f) == [] {
      FirstSaveNumber(s, h, n, f, e.ts, e.now);
    } else {
      LaterSaveNumber(s, h, n, f, e.ts, e.now);
    }
  }

  lemma StaleStep(s: State, h: History, n: nat, e: Event, f: string)
    requires Aligned(s, h) && (f in h ==> FolderOk(s, h, f, n))
    requires EntriesOf(Apply(s, e), f) == EntriesOf(s, f) + Added(s, e, f)
    ensures Surplus(EntriesOf(Apply(s, e), f)) == Surplus(EntriesOf(s, f)) + Stale(h, e, f)
  {
    if e.Save? && e.folder == f {
      OwnSaveSurplus(s, h, n, e, f);
    } else {
      assert EntriesOf(s, f) + [] == EntriesOf(s, f);
    }
  }

  lemma {:induction false} StaleRun(s: State, h: History, n: nat, events: seq<Event>, f: string)
    requires Aligned(s, h) && (f in h ==> FolderOk(s, h, f, n))
    requires Disciplined(h, events, f) && n + |events| < TWO64
    ensures Surplus(EntriesOf(Run(s, events), f)) == Surplus(EntriesOf(s, f)) + StaleSaves(h, events, f)
    decreases |events|
  {
    if |events| > 0 {
      FolderStep(s, h, n, events[0], f);
      StaleStep(s, h, n, events[0], f);
      AlignedStep(s, h, events[0]);
      StaleRun(Apply(s, events[0]), Record(h, events[0]), n + 1, events[1..], f);
    }
  }

  /** Conservation: a folder has as many entries as numbers in use plus one for each save that was
      the first after a reopen. Those are the entries subsampling cannot reach. */
  lemma NumbersConserved(events: seq<Event>, f: string)
    requires Lawful(events, f)
    ensures |EntriesOf(After(events), f)| == Used(EntriesOf(After(events), f)) + StaleSaves(NO_HISTORY, events, f)
  {
    FreshIsOk(f);
    StaleRun(FRESH, NO_HISTORY, 0, events, f);
  }

  // ----- what the timestamp discipline is needed for -----

  /** Nothing is stored under (t, c), and everything later than t carries number c. */
  ghost predicate SafeAt(es: seq<Entry>, c: u64, t: u64) {
    && (forall x :: x in es ==> x.key != ID(t, c))
    && (forall x :: x in es && x.key.timestamp > t ==> x.key.unique == c)
  }

  /** A save at timestamp t keeps a dense folder dense without overwriting exactly when it is safe;
      it can only overwrite while the counter still equals the last number. */
  lemma SaveIsSafeIff(es: seq<Entry>, c: u64, e: Entry)
    requires Stored(es) && Dense(es) && CounterFits(es, c) && c + 1 < TWO64
    requires e.key.timestamp != 0 && e.key.unique == c && e.value.id == e.key
    ensures |Insert(es, e)| == |es| + 1 && Dense(Insert(es, e)) <==> SafeAt(es, c, e.key.timestamp)
    ensures SafeAt(es, c, e.key.timestamp) ==> CounterFits(Insert(es, e), c + 1)
    ensures |Insert(es, e)| == |es| ==> |es| > 0 && c == es[|es| - 1].key.unique
  {
    InsertMembers(es, e);
    DenseNeverDecreases(es);
    var at := FirstAtLeast(es, e.key);
    forall x | x in es
      ensures x.key.unique <= c
    {
      var k :| 0 <= k < |es| && es[k] == x;
      assert es[k].key.unique <= es[|es| - 1].key.unique;
    }
    if forall x :: x in es ==> x.key != e.key {
      if SafeAt(es, c, e.key.timestamp) {
        SafeInsert(es, c, e);
      }
      if Dense(Insert(es, e)) {
        DenseInsert(es, c, e);
      }
    }
  }

  lemma InsertShape(es: seq<Entry>, e: Entry)
    requires Stored(es) && e.key.timestamp != 0 && forall x :: x in es ==> x.key != e.key
    ensures var at, out := FirstAtLeast(es, e.key), Insert(es, e);
            && |out| == |es| + 1 && out[at] == e
            && (forall k :: 0 <= k < at ==> out[k] == es[k])
            && (forall k :: at < k < |out| ==> out[k] == es[k - 1])
  {
  }

  lemma DenseSplice(es: seq<Entry>, out: seq<Entry>, at: nat, e: Entry)
    requires Dense(es) && at < |es| && |out| == |es| + 1 && out[at] == e
    requires forall k :: 0 <= k < at ==> out[k] == es[k]
    requires forall k :: at < k < |out| ==> out[k] == es[k - 1]
    requires e.key.unique == es[at].key.unique
    ensures Dense(out)
  {
  }

  lemma LaterCarries(c: u64, e: Entry, x: Entry)
    requires CompareIDs(x.key, e.key) >= 0 && x.key != e.key && x.key.unique <= c == e.key.unique
    requires e.key.timestamp != 0 && x.key.timestamp != 0
    ensures x.key.timestamp > e.key.timestamp
  {
  }

  lemma AllTheSameFrom(es: seq<Entry>, c: u64, e: Entry, at: nat)
    requires Stored(es) && at == FirstAtLeast(es, e.key) < |es|
    requires e.key.unique == c && SafeAt(es, c, e.key.timestamp) && e.key.timestamp != 0
    requires forall x :: x in es ==> x.key.unique <= c
    ensures es[at].key.unique == c == es[|es| - 1].key.unique
  {
    var first, last := es[at], es[|es| - 1];
    assert first in es && last in es;
    LaterCarries(c, e, first);
    assert at < |es| - 1 ==> Earlier(first.key, last.key);
  }

  lemma SafeInsert(es: seq<Entry>, c: u64, e: Entry)
    requires Stored(es) && Dense(es) && CounterFits(es, c) && c + 1 < TWO64
    requires e.key.timestamp != 0 && e.key.unique == c && SafeAt(es, c, e.key.timestamp)
    requires forall x :: x in es ==> x.key.unique <= c
    ensures Dense(Insert(es, e)) && CounterFits(Insert(es, e), c + 1)
  {
    var at := FirstAtLeast(es, e.key);
    if at == |es| {
      InsertAtEnd(es, e);
      AppendKeepsDense(es, e);
    } else {
      InsertShape(es, e);
      AllTheSameFrom(es, c, e, at);
      DenseSplice(es, Insert(es, e), at, e);
    }
  }

  lemma LaterInDenseInsert(es: seq<Entry>, c: u64, e: Entry, k: nat)
    requires Stored(es) && e.key.timestamp != 0 && e.key.unique == c && Dense(Insert(es, e))
    requires forall x :: x in es ==> x.key != e.key
    requires k < |es| && es[k].key.timestamp > e.key.timestamp
    ensures es[k].key.unique >= c
  {
    var at, out := FirstAtLeast(es, e.key), Insert(es, e);
    InsertShape(es, e);
    assert at <= k;
    DenseOrdered(out, at, k + 1);
  }

  lemma DenseInsert(es: seq<Entry>, c: u64, e: Entry)
    requires Stored(es) && e.key.timestamp != 0 && e.key.unique == c && Dense(Insert(es, e))
    requires forall x :: x in es ==> x.key.unique <= c && x.key != e.key
    ensures SafeAt(es, c, e.key.timestamp)
  {
    forall x | x in es && x.key.timestamp > e.key.timestamp
      ensures x.key.unique == c
    {
      var k :| 0 <= k < |es| && es[k] == x;
      LaterInDenseInsert(es, c, e, k);
    }
  }

  lemma RunOfThree(s: State, a: Event, b: Event, c: Event)
    requires Keyed(s)
    ensures Run(s, [a, b, c]) == Apply(Apply(Apply(s, a), b), c)
  {
    var s1 := Apply(s, a);
    var s2 := Apply(s1, b);
    assert [a, b, c][1..] == [b, c] && [b, c][1..] == [c] && [c][1..] == [];
    assert Run(s2, [c]) == Run(Apply(s2, c), []);
    assert Run(s1, [b, c]) == Run(s2, [c]);
  }

  lemma TimelineOfThree(a: Event, b: Event, c: Event, f: string)
    ensures Timeline([a, b, c], f) == Asked(a, f) + Asked(b, f) + Asked(c, f)
  {
    assert [a, b, c][1..] == [b, c] && [b, c][1..] == [c] && [c][1..] == [];
    assert Timeline([c], f) == Asked(c, f) + [];
    assert Timeline([b, c], f) == Asked(b, f) + Timeline([c], f);
  }

  lemma OverwrittenAfterRestart(s: State, f: string)
    requires Keyed(s) && DEFAULT_FAMILY in s.families && f in s.families && s.families[f] == [] && s.lastUnique[f] == 0
    ensures |EntriesOf(Apply(Apply(Apply(s, Save(f, 7, 1, [1])), Restart), Save(f, 7, 1, [2])), f)| == 1
  {
    var id := ID(7, 0);
    var s1 := Apply(s, Save(f, 7, 1, [1]));
    assert s1.families[f] == [Entry(id, Data(id, [1]))];
    var s2 := Apply(s1, Restart);
    assert s2.families[f] == s1.families[f] && s2.lastUnique[f] == 0;
    assert NextId(s2, f, 7, 1) == id;
  }

  /** A save with the timestamp of the last one, right after a restart, overwrites it. */
  lemma RestartThenSameTimestampOverwrites()
    ensures exists events: seq<Event>, f: string ::
              |Timeline(events, f)| == 2 && |EntriesOf(After(events), f)| == 1
  {
    var f := DEFAULT_FAMILY;
    var first, second := Save(f, 7, 1, [1]), Save(f, 7, 1, [2]);
    RunOfThree(FRESH, first, Restart, second);
    TimelineOfThree(first, Restart, second, f);
    OverwrittenAfterRestart(FRESH, f);
    assert |Timeline([first, Restart, second], f)| == 2;
    assert |EntriesOf(After([first, Restart, second]), f)| == 1;
  }

  // ----- end to end sampling -----

  lemma RunIsSampleable(events: seq<Event>, f: string)
    requires Lawful(events, f) && f in After(events).families
    ensures var es := After(events).families[f];
            && Stored(es) && Dense(es) && UniquesNeverDecrease(es)
            && (|es| > 0 ==> es[|es| - 1].key.unique < |events|)
            && InFolder(es, TotalRange(es)) && TotalRange(es).from == 0 <= TotalRange(es).till
  {
    RunInvariant(events, f);
    DenseNeverDecreases(After(events).families[f]);
  }

  /** In any folder of a lawful run with something in it, no total subsample over HTTP contains an empty
      message; over gRPC, exactly when the last number is not negative as an `int`. */
  lemma RunTotalSample(events: seq<Event>, f: string)
    requires Lawful(events, f) && f in After(events).families
    ensures var es := After(events).families[f];
            var range := TotalRange(es);
            && (NeverEmpty(es, range.from, HttpSpan(range)) <==> |es| > 0)
            && (|events| <= TWO63 ==>
                  (NeverEmpty(es, GrpcFrom(range), GrpcSpan(range)) <==> |es| > 0 && range.till % TWO32 < TWO31))
  {
    var es := After(events).families[f];
    var range := TotalRange(es);
    RunIsSampleable(events, f);
    NeverEmptyIff(es, range.from, HttpSpan(range));
    if |es| == 0 {
      EmptyFindsNothing(es, range.from, HttpSpan(range));
    } else {
      SpanInOrder(range);
      SpanFinds(es, range.from, range.till, HttpSpan(range));
    }
    if |events| <= TWO63 {
      GrpcNeverEmptyIff(es, range);
    }
  }

  /** For a period: over HTTP, exactly when no number rises between the period's end and its start,
      as in every period in order; over gRPC, exactly when the range is within an `int`. */
  lemma RunPeriodSample(events: seq<Event>, f: string, fromTs: u64, tillTs: u64)
    requires Lawful(events, f) && f in After(events).families && |events| <= TWO63
    ensures var es := After(events).families[f];
            var range := PeriodRange(es, fromTs, tillTs);
            && (NeverEmpty(es, range.from, HttpSpan(range)) <==> |es| > 0 && NoRise(es, fromTs, tillTs))
            && (fromTs <= tillTs ==> NoRise(es, fromTs, tillTs))
            && (NeverEmpty(es, GrpcFrom(range), GrpcSpan(range)) <==> |es| > 0 && WithinInt(range))
  {
    var es := After(events).families[f];
    RunIsSampleable(events, f);
    PeriodOrdered(es, fromTs, tillTs);
    PeriodInOrderIff(es, fromTs, tillTs);
    HttpNeverEmptyIff(es, PeriodRange(es, fromTs, tillTs));
    GrpcNeverEmptyIff(es, PeriodRange(es, fromTs, tillTs));
  }
}
