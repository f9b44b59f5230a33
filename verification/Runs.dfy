/** Whole runs of the store: saves, folder creations and restarts in any order. */
module Runs {
  import opened Bytes
  import opened Keys
  import opened Options
  import opened Folders
  import opened UniqueRanges
  import opened Store

  datatype Event =
    | Save(folder: string, ts: u64, now: u64, data: Body)
    | CreateFolder(name: string)
    | Restart

  function Apply(s: State, e: Event): (s': State)
    requires Keyed(s)
    ensures Keyed(s')
  {
    match e
    case Save(folder, ts, now, data) => SaveTo(s, folder, ts, now, data)
    case CreateFolder(name) => GetOrCreate(s, name)
    case Restart => Start(s.families)
  }

  ghost function Run(s: State, events: seq<Event>): (s': State)
    requires Keyed(s)
    ensures Keyed(s')
    decreases |events|
  {
    if |events| == 0 then s else Run(Apply(s, events[0]), events[1..])
  }

  const FRESH := Start(map[])

  // ----- the callers' side: what was asked for, and when -----

  /** Of one folder: the timestamp of the last save, if any, and whether the store was reopened
      since. */
  datatype Clock = Clock(last: Option<u64>, reopened: bool)
  type History = map<string, Clock>

  function Reopened(h: History): History {
    map f | f in h :: h[f].(reopened := true)
  }

  function Mention(h: History, folder: string): History {
    if folder in h then h else Reopened(h)[folder := Clock(None, true)]
  }

  function Record(h: History, e: Event): History {
    match e
    case Save(folder, ts, now, _) => Mention(h, folder)[folder := Clock(Some(EffectiveTs(ts, now)), false)]
    case CreateFolder(name) => Mention(h, name)
    case Restart => Reopened(h)
  }

  const NO_HISTORY: History := map[DEFAULT_FAMILY := Clock(None, true)]

  predicate NewestYet(clock: Clock, t: u64) {
    clock.last.Some? ==> t > clock.last.value || (t == clock.last.value && !clock.reopened)
  }

  /** The timestamp discipline for folder f: its timestamps never decrease, and they strictly
      increase across a reopen. Saves into other folders are free. */
  predicate InTime(h: History, e: Event, f: string) {
    e.Save? && e.folder == f ==>
      var t := EffectiveTs(e.ts, e.now);
      t != 0 && (f in h ==> NewestYet(h[f], t))
  }

  predicate Disciplined(h: History, events: seq<Event>, f: string)
    decreases |events|
  {
    |events| == 0 || (InTime(h, events[0], f) && Disciplined(Record(h, events[0]), events[1..], f))
  }

  // ----- the invariant -----

  /** The counter is the last number, or one past it. */
  ghost predicate CounterFits(es: seq<Entry>, c: u64) {
    if |es| == 0 then c == 0
    else c == es[|es| - 1].key.unique || c == es[|es| - 1].key.unique + 1
  }

  /** Counter and last entry agree with the history; at most n saves so far. */
  ghost predicate TailFits(es: seq<Entry>, c: u64, clock: Clock, n: nat) {
    if |es| == 0 then clock.last == None && c == 0
    else && es[|es| - 1].key.unique < n
         && clock.last == Some(es[|es| - 1].key.timestamp)
         && c == es[|es| - 1].key.unique + if clock.reopened then 0 else 1
  }

  /** One folder as its history says it should be. */
  ghost predicate FolderInv(es: seq<Entry>, c: u64, clock: Clock, n: nat) {
    Stored(es) && Dense(es) && TailFits(es, c, clock, n)
  }

  ghost predicate FolderOk(s: State, h: History, f: string, n: nat) {
    f in s.families && f in s.lastUnique && f in h && FolderInv(s.families[f], s.lastUnique[f], h[f], n)
  }

  ghost predicate Aligned(s: State, h: History) {
    Keyed(s) && s.families.Keys == h.Keys && DEFAULT_FAMILY in h
  }

  lemma FolderReopens(es: seq<Entry>, c: u64, clock: Clock, n: nat)
    requires FolderInv(es, c, clock, n)
    ensures FolderInv(es, TotalRange(es).till, clock.(reopened := true), n)
  {
  }

  lemma MentionKeeps(s: State, h: History, n: nat, name: string, f: string)
    requires Aligned(s, h) && (f in h ==> FolderOk(s, h, f, n))
    ensures f in Mention(h, name) ==> FolderOk(GetOrCreate(s, name), Mention(h, name), f, n)
    ensures f in h ==> GetOrCreate(s, name).families[f] == s.families[f]
  {
  }

  lemma InsertAtEnd(es: seq<Entry>, e: Entry)
    requires forall k :: 0 <= k < |es| ==> CompareIDs(es[k].key, e.key) < 0
    ensures Insert(es, e) == es + [e]
  {
  }

  lemma AppendKeepsDense(es: seq<Entry>, e: Entry)
    requires Dense(es)
    requires if |es| == 0 then e.key.unique == 0
             else es[|es| - 1].key.unique <= e.key.unique <= es[|es| - 1].key.unique + 1
    ensures Dense(es + [e])
  {
  }

  lemma LaterThanAll(es: seq<Entry>, e: Entry)
    requires Stored(es) && e.key.timestamp != 0 && (|es| > 0 ==> Earlier(es[|es| - 1].key, e.key))
    ensures forall k :: 0 <= k < |es| ==> CompareIDs(es[k].key, e.key) < 0
  {
  }

  lemma TailAdvances(es: seq<Entry>, c: u64, clock: Clock, n: nat, e: Entry)
    requires TailFits(es, c, clock, n) && e.key.unique == c && NewestYet(clock, e.key.timestamp) && n + 1 < TWO64
    ensures |es| > 0 ==> Earlier(es[|es| - 1].key, e.key)
    ensures TailFits(es + [e], Increment(c), Clock(Some(e.key.timestamp), false), n + 1)
  {
  }

  /** A save in time goes to the end of its folder. */
  lemma SaveAppends(es: seq<Entry>, c: u64, clock: Clock, n: nat, e: Entry)
    requires FolderInv(es, c, clock, n) && e.key.timestamp != 0 && e.value.id == e.key && e.key.unique == c
    requires NewestYet(clock, e.key.timestamp) && n + 1 < TWO64
    ensures Insert(es, e) == es + [e]
    ensures FolderInv(es + [e], Increment(c), Clock(Some(e.key.timestamp), false), n + 1)
  {
    TailAdvances(es, c, clock, n, e);
    LaterThanAll(es, e);
    InsertAtEnd(es, e);
    InsertKeepsStored(es, e);
    AppendKeepsDense(es, e);
  }

  /** Where a save leaves folder f, once the folder exists. */
  lemma SaveLands(s: State, folder: string, ts: u64, now: u64, data: Body, f: string)
    requires Keyed(s) && f in GetOrCreate(s, folder).families
    ensures var s1, s' := GetOrCreate(s, folder), SaveTo(s, folder, ts, now, data);
            var id := NextId(s, folder, ts, now);
            && f in s'.families && f in s'.lastUnique && f in s1.lastUnique
            && s'.families[f] == (if f == folder then Insert(s1.families[f], Entry(id, Data(id, data))) else s1.families[f])
            && s'.lastUnique[f] == (if f == folder then Increment(s1.lastUnique[f]) else s1.lastUnique[f])
            && (f == folder ==> id.unique == s1.lastUnique[f])
  {
  }

  function EntriesOf(s: State, f: string): seq<Entry> {
    if f in s.families then s.families[f] else []
  }

  /** What an event appends to folder f when it is in time. */
  function Added(s: State, e: Event, f: string): seq<Entry> {
    if e.Save? && e.folder == f then
      var id := NextId(s, f, e.ts, e.now);
      [Entry(id, Data(id, e.data))]
    else []
  }

  /** A save into f, seen from f. */
  lemma OwnSaveStep(s: State, h: History, n: nat, e: Event, f: string)
    requires Aligned(s, h) && (f in h ==> FolderOk(s, h, f, n)) && InTime(h, e, f) && n + 1 < TWO64
    requires e.Save? && e.folder == f
    ensures f in Record(h, e) ==> FolderOk(Apply(s, e), Record(h, e), f, n + 1)
    ensures EntriesOf(Apply(s, e), f) == EntriesOf(s, f) + Added(s, e, f)
  {
    MentionKeeps(s, h, n, f, f);
    SaveLands(s, f, e.ts, e.now, e.data, f);
    var id := NextId(s, f, e.ts, e.now);
    var s1, clock := GetOrCreate(s, f), if f in h then h[f] else Clock(None, true);
    SaveAppends(s1.families[f], s1.lastUnique[f], clock, n, Entry(id, Data(id, e.data)));
  }

  /** A save into another folder, seen from f. */
  lemma OtherSaveStep(s: State, h: History, n: nat, e: Event, f: string)
    requires Aligned(s, h) && (f in h ==> FolderOk(s, h, f, n)) && e.Save? && e.folder != f
    ensures f in Record(h, e) ==> FolderOk(Apply(s, e), Record(h, e), f, n + 1)
    ensures EntriesOf(Apply(s, e), f) == EntriesOf(s, f)
  {
    MentionKeeps(s, h, n, e.folder, f);
    if f in h {
      SaveLands(s, e.folder, e.ts, e.now, e.data, f);
    }
  }

  /** A folder creation, seen from folder f. */
  lemma CreateStep(s: State, h: History, n: nat, name: string, f: string)
    requires Aligned(s, h) && (f in h ==> FolderOk(s, h, f, n))
    ensures f in Mention(h, name) ==> FolderOk(GetOrCreate(s, name), Mention(h, name), f, n + 1)
    ensures EntriesOf(GetOrCreate(s, name), f) == EntriesOf(s, f)
  {
    MentionKeeps(s, h, n, name, f);
  }

  /** A restart, seen from folder f. */
  lemma RestartStep(s: State, h: History, n: nat, f: string)
    requires Aligned(s, h) && (f in h ==> FolderOk(s, h, f, n))
    ensures f in h ==> FolderOk(Start(s.families), Reopened(h), f, n + 1)
    ensures EntriesOf(Start(s.families), f) == EntriesOf(s, f)
  {
  }

  /** One event, seen from folder f. */
  lemma FolderStep(s: State, h: History, n: nat, e: Event, f: string)
    requires Aligned(s, h) && (f in h ==> FolderOk(s, h, f, n)) && InTime(h, e, f) && n + 1 < TWO64
    ensures f in Record(h, e) ==> FolderOk(Apply(s, e), Record(h, e), f, n + 1)
    ensures EntriesOf(Apply(s, e), f) == EntriesOf(s, f) + Added(s, e, f)
  {
    if e.Save? && e.folder == f {
      OwnSaveStep(s, h, n, e, f);
    } else {
      assert EntriesOf(s, f) + [] == EntriesOf(s, f);
      match e
      case Save(_, _, _, _) => OtherSaveStep(s, h, n, e, f);
      case CreateFolder(name) => CreateStep(s, h, n, name, f);
      case Restart => RestartStep(s, h, n, f);
    }
  }

  lemma AlignedStep(s: State, h: History, e: Event)
    requires Aligned(s, h)
    ensures Aligned(Apply(s, e), Record(h, e))
  {
  }

  /** History of a run. */
  function RecordAll(h: History, events: seq<Event>): History
    decreases |events|
  {
    if |events| == 0 then h else RecordAll(Record(h, events[0]), events[1..])
  }

  /** The entries a run appends to folder f. */
  function AddedAll(s: State, events: seq<Event>, f: string): seq<Entry>
    requires Keyed(s)
    decreases |events|
  {
    if |events| == 0 then [] else Added(s, events[0], f) + AddedAll(Apply(s, events[0]), events[1..], f)
  }

  /** A run disciplined for a folder keeps its invariant. */
  lemma {:induction false} RunKeeps(s: State, h: History, n: nat, events: seq<Event>, f: string)
    requires Aligned(s, h) && (f in h ==> FolderOk(s, h, f, n))
    requires Disciplined(h, events, f) && n + |events| < TWO64
    ensures Aligned(Run(s, events), RecordAll(h, events))
    ensures f in RecordAll(h, events) ==> FolderOk(Run(s, events), RecordAll(h, events), f, n + |events|)
    decreases |events|
  {
    if |events| > 0 {
      FolderStep(s, h, n, events[0], f);
      AlignedStep(s, h, events[0]);
      RunKeeps(Apply(s, events[0]), Record(h, events[0]), n + 1, events[1..], f);
    }
  }

  /** Appending one event's entries and then the rest's. */
  lemma AppendStep(s: State, e: Event, rest: seq<Event>, f: string)
    requires Keyed(s)
    requires EntriesOf(Apply(s, e), f) == EntriesOf(s, f) + Added(s, e, f)
    requires EntriesOf(Run(Apply(s, e), rest), f) == EntriesOf(Apply(s, e), f) + AddedAll(Apply(s, e), rest, f)
    ensures EntriesOf(Run(Apply(s, e), rest), f)
         == EntriesOf(s, f) + (Added(s, e, f) + AddedAll(Apply(s, e), rest, f))
  {
  }

  /** It changes a folder only by appending. */
  lemma {:induction false} RunAppends(s: State, h: History, n: nat, events: seq<Event>, f: string)
    requires Aligned(s, h) && (f in h ==> FolderOk(s, h, f, n))
    requires Disciplined(h, events, f) && n + |events| < TWO64
    ensures EntriesOf(Run(s, events), f) == EntriesOf(s, f) + AddedAll(s, events, f)
    decreases |events|
  {
    if |events| == 0 {
      assert EntriesOf(s, f) + [] == EntriesOf(s, f);
    } else {
      FolderStep(s, h, n, events[0], f);
      AlignedStep(s, h, events[0]);
      RunAppends(Apply(s, events[0]), Record(h, events[0]), n + 1, events[1..], f);
      AppendStep(s, events[0], events[1..], f);
    }
  }
}
