/**
 * The recordings list: sessions kept in the browser and sessions read from
 * the database are merged by id into one list, each marked with where it
 * is kept, and shown newest id first.
 */
module SessionList {
  import opened Wrappers
  import opened Json
  import opened Ranking

  /** A session object: its id and its other fields. */
  datatype Session = Session(id: int, fields: map<string, JValue>)

  datatype Source = Local | Db | Both

  /** An entry of the merged list: the spread fields plus the source markers. */
  datatype Listed = Listed(id: int, fields: map<string, JValue>, source: Source, inLocal: bool, inDb: bool, hasConflict: bool)

  /** The `Map` from id to entry, in insertion order. */
  type SessionMap = seq<Listed>

  predicate UniqueIds(m: SessionMap) {
    forall i, j :: 0 <= i < j < |m| ==> m[i].id != m[j].id
  }

  function Find(m: SessionMap, id: int): (r: Option<nat>)
    ensures r.Some? ==> r.value < |m| && m[r.value].id == id
    ensures r.None? ==> forall i :: 0 <= i < |m| ==> m[i].id != id
  {
    if |m| == 0 then None
    else if m[|m| - 1].id == id then Some(|m| - 1)
    else Find(m[..|m| - 1], id)
  }

  /** `map.get(id)`. */
  function Get(m: SessionMap, id: int): (r: Option<Listed>)
    ensures r.Some? ==> r.value.id == id && r.value in m
  {
    match Find(m, id)
    case None => None
    case Some(i) => Some(m[i])
  }

  /** `map.set(e.id, e)`: a present key keeps its place, a new one goes last. */
  function Put(m: SessionMap, e: Listed): SessionMap {
    match Find(m, e.id)
    case None => m + [e]
    case Some(i) => m[i := e]
  }

  lemma PutGet(m: SessionMap, e: Listed)
    requires UniqueIds(m)
    ensures UniqueIds(Put(m, e))
    ensures forall k :: Get(Put(m, e), k) == if k == e.id then Some(e) else Get(m, k)
  {
    var r := Put(m, e);
    assert UniqueIds(r);
    forall k
      ensures Get(r, k) == if k == e.id then Some(e) else Get(m, k)
    {
      PutGetAt(m, e, k);
    }
  }

  lemma PutGetAt(m: SessionMap, e: Listed, k: int)
    requires UniqueIds(m) && UniqueIds(Put(m, e))
    ensures Get(Put(m, e), k) == if k == e.id then Some(e) else Get(m, k)
  {
    var r := Put(m, e);
    FindUnique(r, k);
    FindUnique(m, k);
    if k == e.id {
      match Find(m, e.id)
      case None => assert r[|m|] == e;
      case Some(i) => assert r[i] == e;
    } else {
      match Find(m, e.id)
      case None =>
        if Find(m, k).Some? {
          var i := Find(m, k).value;
          assert r[i] == m[i];
        }
        if Find(r, k).Some? {
          var i := Find(r, k).value;
          assert i < |m| && r[i] == m[i];
        }
      case Some(j) =>
        if Find(m, k).Some? {
          var i := Find(m, k).value;
          assert r[i] == m[i];
        }
        if Find(r, k).Some? {
          var i := Find(r, k).value;
          assert r[i] == m[i];
        }
    }
  }

  /** With unique ids, the entry with an id is the one `Get` finds. */
  lemma FindUnique(m: SessionMap, k: int)
    requires UniqueIds(m)
    ensures forall i :: 0 <= i < |m| && m[i].id == k ==> Get(m, k) == Some(m[i])
  {
  }

  // ---------------------------------------------------------------------------
  // The merge, step by step

  /**
   * `data_modificacao` as a time in ms, given how a date text is read
   * (None for a text `new Date` cannot read, whose time is NaN); a missing
   * or empty date counts as the epoch.
   */
  function ModifiedMs(fields: map<string, JValue>, parseDate: string -> Option<int>): Option<int> {
    if "data_modificacao" in fields && fields["data_modificacao"].JStr? && fields["data_modificacao"].s != []
    then parseDate(fields["data_modificacao"].s)
    else Some(0)
  }

  /**
   * The two copies were modified more than a second apart; a date that
   * cannot be read makes the difference NaN, and NaN is never above 1000.
   */
  predicate Conflict(local: map<string, JValue>, db: map<string, JValue>, parseDate: string -> Option<int>): (c: bool)
    ensures c ==> ModifiedMs(local, parseDate).Some? && ModifiedMs(db, parseDate).Some?
    ensures ModifiedMs(local, parseDate) == ModifiedMs(db, parseDate) ==> !c
  {
    var a := ModifiedMs(local, parseDate);
    var b := ModifiedMs(db, parseDate);
    a.Some? && b.Some? &&
    var d := a.value - b.value;
    (if d < 0 then -d else d) > 1000
  }

  function LocalEntry(s: Session): Listed {
    Listed(s.id, s.fields, Local, true, false, false)
  }

  /** The entry a database session makes, given the entry already under its id. */
  function DbEntry(existing: Option<Listed>, d: Session, parseDate: string -> Option<int>): (e: Listed)
    ensures e.id == d.id && e.inDb
  {
    match existing
    case Some(x) => Listed(d.id, x.fields + d.fields, Both, x.inLocal, true, Conflict(x.fields, d.fields, parseDate))
    case None => Listed(d.id, d.fields, Db, false, true, false)
  }

  function FoldLocal(m: SessionMap, ss: seq<Session>): SessionMap {
    if |ss| == 0 then m else Put(FoldLocal(m, ss[..|ss| - 1]), LocalEntry(ss[|ss| - 1]))
  }

  function FoldDb(m: SessionMap, ds: seq<Session>, parseDate: string -> Option<int>): SessionMap {
    if |ds| == 0 then m
    else
      var acc := FoldDb(m, ds[..|ds| - 1], parseDate);
      Put(acc, DbEntry(Get(acc, ds[|ds| - 1].id), ds[|ds| - 1], parseDate))
  }

  function ById(e: Listed): real {
    e.id as real
  }

  /** The list `loadAndDisplayAllSessions` shows. */
  function Combined(localSessions: seq<Session>, dbSessions: seq<Session>, parseDate: string -> Option<int>): (r: SessionMap)
    ensures forall i, j :: 0 <= i < j < |r| ==> r[i].id >= r[j].id
  {
    var m := FoldDb(FoldLocal([], localSessions), dbSessions, parseDate);
    SortDescSorted(m, ById);
    SortDesc(m, ById)
  }

  /**
   * The merge in `loadAndDisplayAllSessions`: the local sessions go into the
   * map first, then each database session joins the entry under its id or
   * starts one, and the values are sorted by descending id.
   */
  method MergeSessions(localSessions: seq<Session>, dbSessions: seq<Session>, parseDate: string -> Option<int>)
    returns (combinedSessions: seq<Listed>)
    ensures combinedSessions == Combined(localSessions, dbSessions, parseDate)
  {
    var allSessionsMap: SessionMap := [];
    var i := 0;
    while i < |localSessions|
      invariant 0 <= i <= |localSessions|
      invariant allSessionsMap == FoldLocal([], localSessions[..i])
    {
      assert localSessions[..i + 1][..i] == localSessions[..i];
      allSessionsMap := Put(allSessionsMap, LocalEntry(localSessions[i]));
      i := i + 1;
    }
    assert localSessions[..i] == localSessions;
    ghost var start := allSessionsMap;
    var j := 0;
    while j < |dbSessions|
      invariant 0 <= j <= |dbSessions|
      invariant allSessionsMap == FoldDb(start, dbSessions[..j], parseDate)
    {
      assert dbSessions[..j + 1][..j] == dbSessions[..j];
      var dbSession := dbSessions[j];
      var existingSession := Get(allSessionsMap, dbSession.id);
      if existingSession.Some? {
        var x := existingSession.value;
        allSessionsMap := Put(allSessionsMap, Listed(dbSession.id, x.fields + dbSession.fields, Both, x.inLocal, true,
                                                     Conflict(x.fields, dbSession.fields, parseDate)));
      } else {
        allSessionsMap := Put(allSessionsMap, Listed(dbSession.id, dbSession.fields, Db, false, true, false));
      }
      j := j + 1;
    }
    assert dbSessions[..j] == dbSessions;
    combinedSessions := SortDesc(allSessionsMap, ById);
  }

  // ---------------------------------------------------------------------------
  // What the merged list holds

  /** The last session with an id. */
  function LastWith(ss: seq<Session>, id: int): (r: Option<Session>)
    ensures r.Some? ==> r.value in ss && r.value.id == id
    ensures r.None? <==> forall i :: 0 <= i < |ss| ==> ss[i].id != id
  {
    if |ss| == 0 then None
    else if ss[|ss| - 1].id == id then Some(ss[|ss| - 1])
    else LastWith(ss[..|ss| - 1], id)
  }

  predicate DistinctIds(ss: seq<Session>) {
    forall i, j :: 0 <= i < j < |ss| ==> ss[i].id != ss[j].id
  }

  /**
   * The entry listed under an id, by where the id occurs: only locally, a
   * local entry of the last local copy; only in the database, a database
   * entry; in both, the local fields overwritten by the database's, marked
   * as a conflict when the modification times differ by more than a second.
   */
  function Expected(localSessions: seq<Session>, dbSessions: seq<Session>, id: int, parseDate: string -> Option<int>): Option<Listed> {
    match LastWith(dbSessions, id)
    case None =>
      (match LastWith(localSessions, id)
       case None => None
       case Some(l) => Some(LocalEntry(l)))
    case Some(d) =>
      (match LastWith(localSessions, id)
       case None => Some(Listed(id, d.fields, Db, false, true, false))
       case Some(l) => Some(Listed(id, l.fields + d.fields, Both, true, true, Conflict(l.fields, d.fields, parseDate))))
  }

  lemma {:induction false} FoldLocalGet(ss: seq<Session>)
    ensures UniqueIds(FoldLocal([], ss))
    ensures forall k :: (Get(FoldLocal([], ss), k) ==
                         match LastWith(ss, k) case None => None case Some(l) => Some(LocalEntry(l)))
  {
    if |ss| > 0 {
      var init := ss[..|ss| - 1];
      FoldLocalGet(init);
      PutGet(FoldLocal([], init), LocalEntry(ss[|ss| - 1]));
    }
  }

  lemma {:induction false} FoldDbGet(m: SessionMap, ds: seq<Session>, parseDate: string -> Option<int>)
    requires UniqueIds(m) && DistinctIds(ds)
    ensures UniqueIds(FoldDb(m, ds, parseDate))
    ensures forall k :: (Get(FoldDb(m, ds, parseDate), k) ==
                         match LastWith(ds, k) case None => Get(m, k) case Some(d) => Some(DbEntry(Get(m, k), d, parseDate)))
  {
    if |ds| > 0 {
      var init := ds[..|ds| - 1];
      var d := ds[|ds| - 1];
      FoldDbGet(m, init, parseDate);
      var acc := FoldDb(m, init, parseDate);
      assert LastWith(init, d.id).None?;
      PutGet(acc, DbEntry(Get(acc, d.id), d, parseDate));
    }
  }

  /** The map before sorting holds, under each id, the expected entry. */
  lemma MapHoldsExpected(localSessions: seq<Session>, dbSessions: seq<Session>, parseDate: string -> Option<int>)
    requires DistinctIds(dbSessions)
    ensures var m := FoldDb(FoldLocal([], localSessions), dbSessions, parseDate);
      UniqueIds(m) && forall k :: Get(m, k) == Expected(localSessions, dbSessions, k, parseDate)
  {
    FoldLocalGet(localSessions);
    FoldDbGet(FoldLocal([], localSessions), dbSessions, parseDate);
  }

  /** An id occurring twice in a list makes its entry occur twice. */
  lemma TwiceCounted(s: seq<Listed>, i: nat, j: nat)
    requires i < j < |s| && s[i] == s[j]
    ensures multiset(s)[s[i]] >= 2
  {
    assert s == s[..j] + s[j..];
    assert s[i] in multiset(s[..j]);
    assert s[j] in multiset(s[j..]);
  }

  lemma {:induction false} UniqueOnce(m: SessionMap, x: Listed)
    requires UniqueIds(m)
    ensures multiset(m)[x] <= 1
  {
    if |m| > 0 {
      var init := m[..|m| - 1];
      assert m == init + [m[|m| - 1]];
      UniqueOnce(init, x);
      if m[|m| - 1] == x {
        assert x !in init;
      }
    }
  }

  /**
   * Given database ids are distinct, the shown list is ordered by
   * descending id, lists each id once, lists exactly the ids of either
   * source, and lists under each the expected entry.
   */
  lemma CombinedIsMerge(localSessions: seq<Session>, dbSessions: seq<Session>, parseDate: string -> Option<int>)
    requires DistinctIds(dbSessions)
    ensures var c := Combined(localSessions, dbSessions, parseDate);
      SortedDesc(c, ById) &&
      (forall x :: x in c ==> Expected(localSessions, dbSessions, x.id, parseDate) == Some(x)) &&
      (forall k :: Expected(localSessions, dbSessions, k, parseDate).Some? ==>
                   Expected(localSessions, dbSessions, k, parseDate).value in c) &&
      UniqueIds(c)
  {
    var m := FoldDb(FoldLocal([], localSessions), dbSessions, parseDate);
    var c := Combined(localSessions, dbSessions, parseDate);
    MapHoldsExpected(localSessions, dbSessions, parseDate);
    SortDescSorted(m, ById);
    SortDescPermutes(m, ById);
    ReorderedMap(m, c);
  }

  /** A reordering of a map with distinct ids has distinct ids, and holds under each id what the map holds. */
  lemma ReorderedMap(m: SessionMap, c: SessionMap)
    requires UniqueIds(m) && multiset(c) == multiset(m)
    ensures forall x :: x in c ==> Get(m, x.id) == Some(x)
    ensures forall k :: Get(m, k).Some? ==> Get(m, k).value in c
    ensures UniqueIds(c)
  {
    forall x | x in c
      ensures Get(m, x.id) == Some(x)
    {
      assert x in multiset(m);
      FindUnique(m, x.id);
    }
    forall k | Get(m, k).Some?
      ensures Get(m, k).value in c
    {
      assert Get(m, k).value in multiset(c);
    }
    ReorderedUnique(m, c);
  }

  lemma ReorderedUnique(m: SessionMap, c: SessionMap)
    requires UniqueIds(m) && multiset(c) == multiset(m)
    ensures UniqueIds(c)
  {
    forall i, j | 0 <= i < j < |c|
      ensures c[i].id != c[j].id
    {
      if c[i].id == c[j].id {
        assert c[i] in m && c[j] in m by {
          assert c[i] in multiset(m) && c[j] in multiset(m);
        }
        var a :| 0 <= a < |m| && m[a] == c[i];
        var b :| 0 <= b < |m| && m[b] == c[j];
        assert a == b;
        TwiceCounted(c, i, j);
        UniqueOnce(m, c[i]);
      }
    }
  }
}
