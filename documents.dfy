/** The query and mutation handlers over the `documents` table. Queries read one
    snapshot of the table; mutations change the table held by `DocumentStore`.
    Index scans and search-index results are inputs: which rows they return is
    constrained, their order is the index's own. */
module Documents {
  import opened Schema
  import opened Directory
  import opened JsStrings

  /** The two ways a handler asks the database for rows. */
  datatype Partition = CreatedBy(user: UserId) | PublicOnes

  predicate InPartition(d: Doc, p: Partition) {
    match p
    case CreatedBy(u) => d.createdBy == u
    case PublicOnes => d.isPublic
  }

  /** Every element of `s` is the current row of `t` under its id, lies in `p`,
      and no row comes twice: what any query over `t` restricted to `p` returns. */
  predicate SoundResults(s: seq<Doc>, t: Table, p: Partition) {
    NoDuplicateIds(s) &&
    forall i :: 0 <= i < |s| ==> s[i].id in t && t[s[i].id] == s[i] && InPartition(s[i], p)
  }

  /** `.withIndex(...).collect()`: sound, and every row of `p` is there. */
  predicate IndexScan(s: seq<Doc>, t: Table, p: Partition) {
    SoundResults(s, t, p) &&
    forall id :: id in t && InPartition(t[id], p) ==> HasId(s, id)
  }

  /** `d` is the current row under its id and `user` may read it. */
  predicate Visible(t: Table, d: Doc, user: UserId) {
    d.id in t && t[d.id] == d && CanAccess(d, user)
  }

  /** The number of results each search partition keeps (`.take(10)`). */
  const SearchLimit: nat := 10

  /** `.take(n)`: the first `n` results, or all when there are fewer. */
  function Take(s: seq<Doc>, n: nat): (r: seq<Doc>)
    ensures r <= s
    ensures |r| == if |s| <= n then |s| else n
  {
    if |s| <= n then s else s[..n]
  }

  lemma TakeSound(s: seq<Doc>, t: Table, p: Partition, n: nat)
    requires SoundResults(s, t, p)
    ensures SoundResults(Take(s, n), t, p)
  {
  }

  /** The elements of a merge are those of its two inputs. */
  lemma AppendAbsentMembers(a: seq<Doc>, b: seq<Doc>)
    ensures forall d :: d in AppendAbsent(a, b) ==> d in a || d in b
    ensures forall d :: d in a ==> d in AppendAbsent(a, b)
  {
    var r := AppendAbsent(a, b);
    AppendAbsentOnlyNew(a, b);
    forall d | d in r ensures d in a || d in b {
      var k :| 0 <= k < |r| && r[k] == d;
      if k < |a| {
        assert r[..|a|][k] == d;
      }
    }
    forall d | d in a ensures d in r {
      var k :| 0 <= k < |a| && a[k] == d;
      assert r[..|a|][k] == d;
    }
  }

  /** Merging two sound partitions leaves exactly the visible rows that either
      one holds, each once when the first holds no duplicate. */
  lemma MergeSound(t: Table, u: UserId, a: seq<Doc>, b: seq<Doc>, pa: Partition, pb: Partition)
    requires SoundResults(a, t, pa) && SoundResults(b, t, pb)
    requires forall d :: InPartition(d, pa) || InPartition(d, pb) ==> CanAccess(d, u)
    ensures NoDuplicateIds(AppendAbsent(a, b))
    ensures forall d :: d in AppendAbsent(a, b) ==> Visible(t, d, u)
    ensures forall d :: d in a || d in b ==> d in AppendAbsent(a, b)
  {
    var r := AppendAbsent(a, b);
    AppendAbsentNoDuplicates(a, b);
    AppendAbsentMembers(a, b);
    AppendAbsentCovers(a, b);
    forall d | d in r ensures Visible(t, d, u) {
      if d in a {
        var k :| 0 <= k < |a| && a[k] == d;
      } else {
        var k :| 0 <= k < |b| && b[k] == d;
      }
    }
    forall d | d in b ensures d in r {
      var e :| e in r && e.id == d.id;
      var k :| 0 <= k < |b| && b[k] == d;
      if e in a {
        var j :| 0 <= j < |a| && a[j] == e;
      } else {
        var j :| 0 <= j < |b| && b[j] == e;
      }
    }
  }

  /** A full index scan holds every row of its partition. */
  lemma ScanHolds(s: seq<Doc>, t: Table, p: Partition, d: Doc)
    requires IndexScan(s, t, p)
    requires d.id in t && t[d.id] == d && InPartition(d, p)
    ensures d in s
  {
  }

  /** The listed rows are exactly the rows the user may read, each once. */
  lemma ListMembers(t: Table, user: UserId, byCreator: seq<Doc>, byPublic: seq<Doc>)
    requires IndexScan(byCreator, t, CreatedBy(user)) && IndexScan(byPublic, t, PublicOnes)
    ensures NoDuplicateIds(AppendAbsent(byCreator, byPublic))
    ensures forall d :: d in SortByRecency(AppendAbsent(byCreator, byPublic)) <==> Visible(t, d, user)
  {
    var merged := AppendAbsent(byCreator, byPublic);
    var sorted := SortByRecency(merged);
    MergeSound(t, user, byCreator, byPublic, CreatedBy(user), PublicOnes);
    forall d | Visible(t, d, user) ensures d in sorted {
      if d.createdBy == user {
        ScanHolds(byCreator, t, CreatedBy(user), d);
      } else {
        ScanHolds(byPublic, t, PublicOnes, d);
      }
      assert d in multiset(merged);
    }
    forall d | d in sorted ensures Visible(t, d, user) {
      assert d in multiset(sorted);
    }
  }

  /** What the merge adds after the caller's own rows is public and owned by
      somebody else; among rows of one timestamp the listing keeps the caller's
      own rows first, in index order, then those. */
  lemma ListTieOrder(t: Table, user: UserId, byCreator: seq<Doc>, byPublic: seq<Doc>)
    requires IndexScan(byCreator, t, CreatedBy(user)) && IndexScan(byPublic, t, PublicOnes)
    ensures forall d :: d in AppendAbsent(byCreator, byPublic)[|byCreator|..] ==>
      d.isPublic && d.createdBy != user
    ensures forall ts :: (WithTimestamp(SortByRecency(AppendAbsent(byCreator, byPublic)), ts) ==
      WithTimestamp(byCreator, ts) + WithTimestamp(AppendAbsent(byCreator, byPublic)[|byCreator|..], ts))
  {
    var merged := AppendAbsent(byCreator, byPublic);
    var publicOnly := merged[|byCreator|..];
    assert merged == byCreator + publicOnly by {
      assert merged[..|byCreator|] == byCreator;
    }
    AppendAbsentOnlyNew(byCreator, byPublic);
    forall d | d in publicOnly ensures d.isPublic && d.createdBy != user {
      var k :| 0 <= k < |publicOnly| && publicOnly[k] == d;
      assert merged[|byCreator| + k] == d;
      var j :| 0 <= j < |byPublic| && byPublic[j] == d;
      if d.createdBy == user {
        ScanHolds(byCreator, t, CreatedBy(user), d);
      }
    }
    forall ts ensures WithTimestamp(SortByRecency(merged), ts) ==
      WithTimestamp(byCreator, ts) + WithTimestamp(publicOnly, ts)
    {
      SortWithTimestamp(merged, ts);
      WithTimestampAppend(byCreator, publicOnly, ts);
    }
  }

  /** `list`: the caller's own documents, then the public ones not already
      there, sorted by `lastModified`, newest first. */
  method List(t: Table, caller: Option<UserId>, byCreator: seq<Doc>, byPublic: seq<Doc>)
    returns (r: Result<seq<Doc>>)
    requires caller.Some? ==>
      IndexScan(byCreator, t, CreatedBy(caller.value)) && IndexScan(byPublic, t, PublicOnes)
    ensures caller.None? ==> r == Err(NotAuthenticated)
    ensures caller.Some? ==> r == Ok(SortByRecency(AppendAbsent(byCreator, byPublic)))
    ensures r.Ok? ==> forall d :: d in r.value <==> Visible(t, d, caller.value)
    ensures r.Ok? ==> NoDuplicateIds(r.value)
    ensures r.Ok? ==> NewestFirst(r.value)
    ensures r.Ok? ==> forall d :: d in AppendAbsent(byCreator, byPublic)[|byCreator|..] ==>
      d.isPublic && d.createdBy != caller.value
    ensures r.Ok? ==> forall ts :: (WithTimestamp(r.value, ts) ==
      WithTimestamp(byCreator, ts) + WithTimestamp(AppendAbsent(byCreator, byPublic)[|byCreator|..], ts))
  {
    if caller.None? {
      return Err(NotAuthenticated);
    }
    var user := caller.value;
    var allDocuments := MergeAbsent(byCreator, byPublic);
    r := Ok(SortByRecency(allDocuments));

    ListMembers(t, user, byCreator, byPublic);
    ListTieOrder(t, user, byCreator, byPublic);
    SortNoDuplicates(allDocuments);
    SortNewestFirst(allDocuments);
  }

  /** `search`: nothing for a blank query; otherwise up to ten of the caller's
      matches in the index's order, then up to ten public matches not already
      present. */
  method Search(t: Table, caller: Option<UserId>, query: string,
                ownerMatches: seq<Doc>, publicMatches: seq<Doc>)
    returns (r: Result<seq<Doc>>)
    requires caller.Some? ==>
      SoundResults(ownerMatches, t, CreatedBy(caller.value)) &&
      SoundResults(publicMatches, t, PublicOnes)
    ensures caller.None? ==> r == Err(NotAuthenticated)
    ensures caller.Some? && IsBlank(query) ==> r == Ok([])
    ensures caller.Some? && !IsBlank(query) ==>
      r == Ok(AppendAbsent(Take(ownerMatches, SearchLimit), Take(publicMatches, SearchLimit)))
    ensures r.Ok? ==> NoDuplicateIds(r.value) && |r.value| <= 2 * SearchLimit
    ensures r.Ok? ==> forall d :: d in r.value ==> Visible(t, d, caller.value)
    ensures r.Ok? && !IsBlank(query) ==>
      Take(ownerMatches, SearchLimit) <= r.value &&
      forall d :: d in Take(publicMatches, SearchLimit) ==> d in r.value
  {
    if caller.None? {
      return Err(NotAuthenticated);
    }
    TrimEmptyIffBlank(query);
    if Trim(query) == [] {
      return Ok([]);
    }
    var user := caller.value;
    var userResults := Take(ownerMatches, SearchLimit);
    var publicResults := Take(publicMatches, SearchLimit);
    var allResults := MergeAbsent(userResults, publicResults);
    r := Ok(allResults);

    TakeSound(ownerMatches, t, CreatedBy(user), SearchLimit);
    TakeSound(publicMatches, t, PublicOnes, SearchLimit);
    MergeSound(t, user, userResults, publicResults, CreatedBy(user), PublicOnes);
    assert allResults[..|userResults|] == userResults;
  }

  /** `get`: null for a missing id, "Access denied" for a private document of
      somebody else, the row otherwise. */
  function Get(t: Table, caller: Option<UserId>, id: DocId): (r: Result<Option<Doc>>)
    ensures caller.None? ==> r == Err(NotAuthenticated)
    ensures caller.Some? && id !in t ==> r == Ok(None)
    ensures caller.Some? && id in t ==>
      r == (if CanAccess(t[id], caller.value) then Ok(Some(t[id])) else Err(AccessDenied))
  {
    match caller
    case None => Err(NotAuthenticated)
    case Some(user) =>
      if id !in t then Ok(None)
      else
        var document := t[id];
        if !document.isPublic && document.createdBy != user then Err(AccessDenied)
        else Ok(Some(document))
  }

  /** `getPublic`: no caller needed; the row iff it exists and is public. */
  function GetPublic(t: Table, id: DocId): (r: Option<Doc>)
    ensures r.Some? <==> id in t && t[id].isPublic
    ensures r.Some? ==> r.value == t[id]
  {
    if id !in t then None
    else
      var document := t[id];
      if !document.isPublic then None else Some(document)
  }

  /** What `list` shows a user is exactly what `get` hands that user. */
  lemma ListedIffGettable(t: Table, user: UserId, d: Doc)
    ensures Visible(t, d, user) <==> Get(t, Some(user), d.id) == Ok(Some(d))
  {
  }

  /** A row `getPublic` returns, `get` returns to every signed-in caller; on a
      private row `getPublic` answers null while `get` answers the owner with
      the row and everybody else with "Access denied". */
  lemma GetPublicAgreesWithGet(t: Table, id: DocId, user: UserId)
    ensures GetPublic(t, id).Some? ==> Get(t, Some(user), id) == Ok(GetPublic(t, id))
    ensures id in t && !t[id].isPublic ==>
      GetPublic(t, id) == None &&
      Get(t, Some(user), id) == (if t[id].createdBy == user then Ok(Some(t[id])) else Err(AccessDenied))
  {
  }

  /** The check every mutation makes, in order: a caller, then the row, then
      ownership. */
  function CheckOwner(t: Table, caller: Option<UserId>, id: DocId): (r: Outcome)
    ensures r == Pass <==> caller.Some? && id in t && t[id].createdBy == caller.value
    ensures caller.None? ==> r == Fail(NotAuthenticated)
    ensures caller.Some? && id !in t ==> r == Fail(NotFound)
    ensures caller.Some? && id in t && t[id].createdBy != caller.value ==> r == Fail(AccessDenied)
  {
    match caller
    case None => Fail(NotAuthenticated)
    case Some(user) =>
      if id !in t then Fail(NotFound)
      else if t[id].createdBy != user then Fail(AccessDenied)
      else Pass
  }

  /** The table after `patch(id, { title, lastModified: now })`. */
  function WithTitle(t: Table, id: DocId, title: string, now: Timestamp): (r: Table)
    requires id in t
    ensures r.Keys == t.Keys
    ensures forall k :: k in t && k != id ==> r[k] == t[k]
    ensures r[id].id == t[id].id && r[id].createdBy == t[id].createdBy && r[id].isPublic == t[id].isPublic
    ensures r[id].title == title && r[id].lastModified == now
  {
    t[id := t[id].(title := title, lastModified := now)]
  }

  /** The table after `patch(id, { isPublic: !isPublic, lastModified: now })`. */
  function WithPublicToggled(t: Table, id: DocId, now: Timestamp): (r: Table)
    requires id in t
    ensures r.Keys == t.Keys
    ensures forall k :: k in t && k != id ==> r[k] == t[k]
    ensures r[id].id == t[id].id && r[id].createdBy == t[id].createdBy && r[id].title == t[id].title
    ensures r[id].isPublic == !t[id].isPublic && r[id].lastModified == now
  {
    t[id := t[id].(isPublic := !t[id].isPublic, lastModified := now)]
  }

  /** A patch touches its target row only, and keeps its id, creator and ids. */
  lemma PatchesTouchOnlyTarget(t: Table, id: DocId, title: string, now: Timestamp)
    requires WellFormed(t) && id in t
    ensures WellFormed(WithTitle(t, id, title, now)) && WellFormed(WithPublicToggled(t, id, now))
    ensures WithTitle(t, id, title, now).Keys == t.Keys && WithPublicToggled(t, id, now).Keys == t.Keys
    ensures forall other :: other in t && other != id ==>
      WithTitle(t, id, title, now)[other] == t[other] && WithPublicToggled(t, id, now)[other] == t[other]
    ensures WithTitle(t, id, title, now)[id] ==
      Doc(id, title, t[id].isPublic, t[id].createdBy, now)
    ensures WithPublicToggled(t, id, now)[id] ==
      Doc(id, t[id].title, !t[id].isPublic, t[id].createdBy, now)
  {
  }

  /** Toggling twice restores the visibility; only the timestamp moves. */
  lemma ToggleTwiceRestores(t: Table, id: DocId, now1: Timestamp, now2: Timestamp)
    requires id in t
    ensures WithPublicToggled(WithPublicToggled(t, id, now1), id, now2) ==
      t[id := t[id].(lastModified := now2)]
  {
  }

  /** The `documents` table, changed in place by the mutations. Fresh ids come
      from a counter standing for the database's id allocation. */
  class DocumentStore {
    var table: Table
    var nextId: DocId

    ghost predicate Valid()
      reads this
    {
      WellFormed(table) && forall id :: id in table ==> id < nextId
    }

    constructor ()
      ensures Valid() && table == map[]
    {
      table := map[];
      nextId := 0;
    }

    /** `create`: a new private-by-default row owned by the caller. */
    method Create(caller: Option<UserId>, title: string, isPublic: Option<bool>, now: Timestamp)
      returns (r: Result<DocId>)
      requires Valid()
      modifies this
      ensures Valid()
      ensures caller.None? ==> r == Err(NotAuthenticated) && table == old(table)
      ensures caller.Some? ==> (r.Ok? && r.value !in old(table) &&
        table == old(table)[r.value := Doc(r.value, title, isPublic == Some(true), caller.value, now)])
    {
      if caller.None? {
        return Err(NotAuthenticated);
      }
      var id := nextId;
      var visible := match isPublic case Some(b) => b case None => false;
      table := table[id := Doc(id, title, visible, caller.value, now)];
      nextId := nextId + 1;
      r := Ok(id);
    }

    /** `updateTitle`. */
    method UpdateTitle(caller: Option<UserId>, id: DocId, title: string, now: Timestamp)
      returns (r: Outcome)
      requires Valid()
      modifies this
      ensures Valid() && nextId == old(nextId)
      ensures r == CheckOwner(old(table), caller, id)
      ensures r.Fail? ==> table == old(table)
      ensures r.Pass? ==> table == WithTitle(old(table), id, title, now)
    {
      r := CheckOwner(table, caller, id);
      if r.Fail? {
        return;
      }
      table := table[id := table[id].(title := title, lastModified := now)];
    }

    /** `togglePublic`. */
    method TogglePublic(caller: Option<UserId>, id: DocId, now: Timestamp)
      returns (r: Outcome)
      requires Valid()
      modifies this
      ensures Valid() && nextId == old(nextId)
      ensures r == CheckOwner(old(table), caller, id)
      ensures r.Fail? ==> table == old(table)
      ensures r.Pass? ==> table == WithPublicToggled(old(table), id, now)
    {
      r := CheckOwner(table, caller, id);
      if r.Fail? {
        return;
      }
      var document := table[id];
      table := table[id := document.(isPublic := !document.isPublic, lastModified := now)];
    }

    /** `remove`: a hard delete of one row. */
    method Remove(caller: Option<UserId>, id: DocId)
      returns (r: Outcome)
      requires Valid()
      modifies this
      ensures Valid() && nextId == old(nextId)
      ensures r == CheckOwner(old(table), caller, id)
      ensures r.Fail? ==> table == old(table)
      ensures r.Pass? ==> table == old(table) - {id}
    {
      r := CheckOwner(table, caller, id);
      if r.Fail? {
        return;
      }
      table := table - {id};
    }
  }
}
