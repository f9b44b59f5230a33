/** The folder registry and the id generator: `DbClient` and `LocalDBClient` (src/DbClient.cpp,
    src/LocalDBClient.cpp). */
module Store {
  import opened Bytes
  import opened Keys
  import opened Options
  import opened Folders
  import opened UniqueRanges

  /** The whole state: each folder's entries on disk, and each known folder's counter. */
  datatype State = State(families: map<string, seq<Entry>>, lastUnique: map<string, u64>)

  /** Every folder has a counter. */
  predicate Keyed(s: State) {
    s.lastUnique.Keys == s.families.Keys
  }

  /** A registry in good order: a counter for every folder, every folder sorted. */
  ghost predicate WellFormed(s: State) {
    && Keyed(s)
    && forall f :: f in s.families ==> Stored(s.families[f])
  }

  // ----- what each operation does to the state -----

  /** Opening the store takes every counter from the folder's last key. */
  function Reopen(s: State): State {
    State(s.families, map f | f in s.families :: TotalRange(s.families[f]).till)
  }

  const DEFAULT_FAMILY := "default"

  /** A process starting on the given disk content; RocksDB supplies the default family. */
  function Start(disk: map<string, seq<Entry>>): State {
    Reopen(State(if DEFAULT_FAMILY in disk then disk else disk[DEFAULT_FAMILY := []], map[]))
  }

  function CreateFamily(s: State, name: string): State {
    Reopen(s.(families := if name in s.families then s.families else s.families[name := []]))
  }

  function GetOrCreate(s: State, name: string): State {
    if name in s.lastUnique then s else CreateFamily(s, name)
  }

  /** A zero timestamp asks for the clock. */
  function EffectiveTs(ts: u64, now: u64): u64 {
    if ts == 0 then now else ts
  }

  function Increment(c: u64): u64 {
    (c + 1) % TWO64
  }

  /** The id the next save into `folder` gets. */
  function NextId(s: State, folder: string, ts: u64, now: u64): ID {
    ID(EffectiveTs(ts, now), if folder in s.lastUnique then s.lastUnique[folder] else 0)
  }

  function TakeId(s: State, folder: string): State
    requires folder in s.lastUnique
  {
    s.(lastUnique := s.lastUnique[folder := Increment(s.lastUnique[folder])])
  }

  function PutData(s: State, folder: string, id: ID, data: Body): State
    requires folder in s.families
  {
    s.(families := s.families[folder := Insert(s.families[folder], Entry(id, Data(id, data)))])
  }

  /** A successful save: the folder is created if need be, an id is taken, the entry is put. */
  function SaveTo(s: State, folder: string, ts: u64, now: u64, data: Body): State
    requires Keyed(s)
  {
    PutData(TakeId(GetOrCreate(s, folder), folder), folder, NextId(s, folder, ts, now), data)
  }

  datatype GetResult = NotFound | Internal | Found(data: Data)

  /** A read by id. */
  function ReadFrom(s: State, folder: string, id: ID): GetResult {
    if folder !in s.families then NotFound
    else match Lookup(s.families[folder], id)
      case None => Internal
      case Some(e) => Found(e.value)
  }

  /** What a read by id finds in a sorted folder: with a timestamp, the message stored under exactly
      that id; without one, the earliest message carrying the number. */
  lemma ReadFromExactly(s: State, folder: string, id: ID)
    requires folder in s.families && Stored(s.families[folder])
    ensures forall d: Data :: ReadFrom(s, folder, id) == Found(d)
                              <==> exists e :: e in s.families[folder] && IsWanted(s.families[folder], id, e) && e.value == d
    ensures ReadFrom(s, folder, id) == Internal <==> forall e :: e in s.families[folder] ==> !IsWanted(s.families[folder], id, e)
    ensures forall e :: e in s.families[folder] && e.key.unique == id.unique && id.timestamp == 0
                        ==> ReadFrom(s, folder, id).Found?
  {
    var es := s.families[folder];
    if id.timestamp != 0 {
      KeyLookup(es, id);
    } else {
      WildcardLookup(es, id.unique);
      FirstIsLookup(es, id.unique);
    }
  }

  /** e answers a read by id. */
  ghost predicate IsWanted(es: seq<Entry>, id: ID, e: Entry) {
    if id.timestamp != 0 then e.key == id else IsFirst(es, id.unique, e)
  }

  /** e is the earliest entry carrying u. */
  ghost predicate IsFirst(es: seq<Entry>, u: u64, e: Entry) {
    e.key.unique == u && forall x :: x in es && x.key.unique == u ==> e.key.timestamp <= x.key.timestamp
  }

  lemma FirstIsLookup(es: seq<Entry>, u: u64)
    requires Stored(es)
    ensures forall e :: e in es ==> (Lookup(es, ID(0, u)) == Some(e) <==> IsFirst(es, u, e))
  {
  }

  /** The number of the last key; 0 for an empty folder. */
  function LastNumber(es: seq<Entry>): u64 {
    if |es| == 0 then 0 else es[|es| - 1].key.unique
  }

  lemma GetOrCreateWellFormed(s: State, name: string)
    requires WellFormed(s)
    ensures WellFormed(GetOrCreate(s, name)) && name in GetOrCreate(s, name).lastUnique
    ensures name !in s.families ==> GetOrCreate(s, name).lastUnique[name] == 0
  {
  }

  lemma GetOrCreateExactly(s: State, name: string)
    requires WellFormed(s)
    ensures var s' := GetOrCreate(s, name);
            && s'.families.Keys == s.families.Keys + {name} && name in s'.lastUnique
            && (forall f :: f in s.families ==> s'.families[f] == s.families[f])
            && (name !in s.families ==> s'.families[name] == [])
            && (forall f :: f in s.families ==>
                  s'.lastUnique[f] == if name in s.families then s.lastUnique[f] else LastNumber(s.families[f]))
  {
  }

  /** Taking an id and putting the entry, in an existing folder. */
  lemma PutExactly(s: State, folder: string, id: ID, data: Body)
    requires Keyed(s) && folder in s.families && Stored(s.families[folder]) && id.timestamp != 0
    ensures var s' := PutData(TakeId(s, folder), folder, id, data);
            && s'.families.Keys == s.families.Keys && s'.lastUnique.Keys == s.lastUnique.Keys
            && (forall f :: f in s.families && f != folder ==>
                  s'.families[f] == s.families[f] && s'.lastUnique[f] == s.lastUnique[f])
            && (forall e :: e in s'.families[folder] <==>
                  e == Entry(id, Data(id, data)) || (e in s.families[folder] && e.key != id))
            && var before: int, after: int := s.lastUnique[folder], s'.lastUnique[folder];
               after == before + 1 || (before == TWO64 - 1 && after == 0)
  {
    InsertMembers(s.families[folder], Entry(id, Data(id, data)));
  }

  /** A save adds one entry to its folder, under the requested or the clock's timestamp and the
      folder's counter, replaces at most the entry under the same key, and leaves other folders alone;
      if it creates the folder, all other counters go back to the last numbers. */
  lemma SaveExactly(s: State, folder: string, ts: u64, now: u64, data: Body, id: ID)
    requires WellFormed(s) && (ts != 0 || now != 0) && id == NextId(s, folder, ts, now)
    ensures id.timestamp == if ts != 0 then ts else now
    ensures id.unique == if folder in s.families then s.lastUnique[folder] else 0
    ensures var s' := SaveTo(s, folder, ts, now, data);
            && Keyed(s') && s'.families.Keys == s.families.Keys + {folder}
            && (forall f :: f in s.families && f != folder ==> s'.families[f] == s.families[f])
            && (forall e :: e in s'.families[folder] <==>
                  e == Entry(id, Data(id, data)) || (folder in s.families && e in s.families[folder] && e.key != id))
            && (s'.lastUnique[folder] == id.unique + 1 || (id.unique == TWO64 - 1 && s'.lastUnique[folder] == 0))
            && (forall f :: f in s.families && f != folder ==>
                  s'.lastUnique[f] == if folder in s.families then s.lastUnique[f] else LastNumber(s.families[f]))
  {
    GetOrCreateExactly(s, folder);
    GetOrCreateWellFormed(s, folder);
    PutExactly(GetOrCreate(s, folder), folder, id, data);
  }

  // ----- the client -----

  class DbClient {
    /** The database's content, by column family. */
    var db: map<string, seq<Entry>>
    /** The cached counters: `columnFamalies[name]->lastUnique`. */
    var columnFamalies: map<string, u64>

    function Value(): State reads this {
      State(db, columnFamalies)
    }

    ghost predicate Valid() reads this {
      WellFormed(Value())
    }

    /** Opens the store over what is on disk. */
    constructor (disk: map<string, seq<Entry>>)
      requires forall f :: f in disk ==> Stored(disk[f])
      ensures Valid() && Value() == Start(disk)
      ensures db.Keys == disk.Keys + {"default"} && forall f :: f in disk ==> db[f] == disk[f]
      ensures forall f :: f in db ==> columnFamalies[f] == LastNumber(db[f])
      ensures "default" !in disk ==> db["default"] == []
    {
      db := if DEFAULT_FAMILY in disk then disk else disk[DEFAULT_FAMILY := []];
      columnFamalies := map[];
      new;
      LoadCounters();
    }

    /** The loop over the reopened handles; their order is the database's. */
    method LoadCounters()
      requires columnFamalies.Keys <= db.Keys
      modifies this`columnFamalies
      ensures Value() == Reopen(old(Value()))
    {
      var handles := db.Keys;
      while handles != {}
        invariant handles <= db.Keys && columnFamalies.Keys <= db.Keys
        invariant forall f :: f in db && f !in handles ==>
                    f in columnFamalies && columnFamalies[f] == TotalRange(db[f]).till
        decreases |handles|
      {
        var cfHandle :| cfHandle in handles;
        var range := GetUniqueRange(db[cfHandle]);
        columnFamalies := columnFamalies[cfHandle := range.till];
        handles := handles - {cfHandle};
      }
      assert columnFamalies == Reopen(old(Value())).lastUnique;
    }

    /** Whether the folder has a handle. */
    method GetColumnFamily(name: string) returns (found: bool)
      ensures found <==> name in columnFamalies
    {
      found := name in columnFamalies;
    }

    method CreateColumnFamily(name: string)
      requires Valid()
      modifies this
      ensures Valid() && Value() == CreateFamily(old(Value()), name)
      ensures db.Keys == old(db).Keys + {name} && forall f :: f in old(db) ==> db[f] == old(db)[f]
      ensures forall f :: f in db ==> columnFamalies[f] == LastNumber(db[f])
      ensures name !in old(db) ==> db[name] == []
    {
      if name !in db {
        db := db[name := []];
      }
      LoadCounters();
    }

    method GetOrCreateColumnFamily(name: string)
      requires Valid()
      modifies this
      ensures Valid() && Value() == GetOrCreate(old(Value()), name)
      ensures name in old(db) ==> db == old(db) && columnFamalies == old(columnFamalies)
      ensures name !in old(db) ==> db.Keys == old(db).Keys + {name} && db[name] == []
      ensures name !in old(db) ==> forall f :: f in db ==> columnFamalies[f] == LastNumber(db[f])
    {
      var found := GetColumnFamily(name);
      if found {
        return;
      }
      CreateColumnFamily(name);
    }

    /** `fetch_add` on the folder's counter. */
    method GenerateId(folder: string, ts: u64, now: u64) returns (id: ID)
      requires Valid()
      modifies this
      ensures Valid() && id == NextId(old(Value()), folder, ts, now)
      ensures Value() == TakeId(GetOrCreate(old(Value()), folder), folder)
      ensures ts != 0 ==> id.timestamp == ts
      ensures ts == 0 ==> id.timestamp == now
      ensures id.unique == if folder in old(db) then old(columnFamalies)[folder] else 0
      ensures columnFamalies[folder] == id.unique + 1 || (id.unique == TWO64 - 1 && columnFamalies[folder] == 0)
    {
      GetOrCreateWellFormed(Value(), folder);
      GetOrCreateColumnFamily(folder);
      var unique := columnFamalies[folder];
      columnFamalies := columnFamalies[folder := Increment(unique)];
      id := ID(if ts == 0 then now else ts, unique);
    }

    method Put(folder: string, id: ID, data: Body)
      requires Valid() && folder in db && id.timestamp != 0
      modifies this`db
      ensures Valid() && Value() == PutData(old(Value()), folder, id, data)
    {
      var e := Entry(id, Data(id, data));
      InsertKeepsStored(db[folder], e);
      var es := PutEntry(db[folder], e);
      db := db[folder := es];
    }

    /** The save request: create the folder, take an id, put the entry, return the id. The clock
        never reads 0. */
    method Save(folder: string, ts: u64, now: u64, data: Body) returns (id: ID)
      requires Valid() && now != 0
      modifies this
      ensures Valid() && id == NextId(old(Value()), folder, ts, now)
      ensures Value() == SaveTo(old(Value()), folder, ts, now, data)
      ensures id.timestamp == if ts != 0 then ts else now
      ensures id.unique == if folder in old(db) then old(columnFamalies)[folder] else 0
      ensures db.Keys == old(db).Keys + {folder} && forall f :: f in old(db) && f != folder ==> db[f] == old(db)[f]
      ensures forall e :: e in db[folder] <==>
                e == Entry(id, Data(id, data)) || (folder in old(db) && e in old(db)[folder] && e.key != id)
    {
      SaveExactly(Value(), folder, ts, now, data, NextId(Value(), folder, ts, now));
      GetOrCreateWellFormed(Value(), folder);
      GetOrCreateColumnFamily(folder);
      id := GenerateId(folder, ts, now);
      Put(folder, id, data);
    }

    /** Whatever the folder, a read returns nothing but a message stored under a key equal to the
        probe; it finds what a linear scan finds for every probe with a timestamp, and for wildcards
        if numbers never decrease. */
    method Get(folder: string, timestamp: u64, unique: u64) returns (result: GetResult)
      requires Valid()
      ensures result == NotFound <==> folder !in db
      ensures result.Found? ==> exists e :: e in db[folder] && e.value == result.data
                                            && CompareIDs(e.key, ID(timestamp, unique)) == 0
      ensures folder in db && (timestamp != 0 || UniquesNeverDecrease(db[folder]))
              ==> result == ReadFrom(Value(), folder, ID(timestamp, unique))
      ensures folder in db && timestamp != 0 ==>
                (result.Found? <==> exists e :: e in db[folder] && e.key == ID(timestamp, unique))
      ensures folder in db && timestamp != 0 ==>
                forall e :: e in db[folder] && e.key == ID(timestamp, unique) ==> result == Found(e.value)
      ensures folder in db && timestamp == 0 && UniquesNeverDecrease(db[folder]) ==>
                (result.Found? <==> exists e :: e in db[folder] && e.key.unique == unique)
      ensures folder in db && timestamp == 0 && UniquesNeverDecrease(db[folder]) ==>
                forall e :: e in db[folder] && IsFirst(db[folder], unique, e) ==> result == Found(e.value)
    {
      var found := GetColumnFamily(folder);
      if !found {
        return NotFound;
      }
      if timestamp != 0 || UniquesNeverDecrease(db[folder]) {
        SearchableProbe(db[folder], ID(timestamp, unique));
        ReadFromExactly(Value(), folder, ID(timestamp, unique));
      }
      var e := Find(db[folder], ID(timestamp, unique));
      result := match e case None => Internal case Some(e) => Found(e.value);
    }
  }
}
