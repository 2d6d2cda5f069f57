/** The permission hooks and the snapshot hook handed to the ProseMirror sync
    engine's `syncApi`. */
module ProsemirrorSync {
  import opened Schema
  import opened Documents

  /** `checkRead`: a caller, then the row, then the access rule, each failure
      with its own error. */
  function CheckPermissions(t: Table, caller: Option<UserId>, documentId: DocId): (r: Outcome)
    ensures r == Pass <==> caller.Some? && documentId in t && CanAccess(t[documentId], caller.value)
    ensures caller.None? ==> r == Fail(NotAuthenticated)
    ensures caller.Some? && documentId !in t ==> r == Fail(NotFound)
    ensures caller.Some? && documentId in t && !CanAccess(t[documentId], caller.value) ==>
      r == Fail(AccessDenied)
  {
    match caller
    case None => Fail(NotAuthenticated)
    case Some(userId) =>
      if documentId !in t then Fail(NotFound)
      else
        var document := t[documentId];
        if !document.isPublic && document.createdBy != userId then Fail(AccessDenied)
        else Pass
  }

  /** `checkWrite`: written out separately, and the same decision as `checkRead`
      for every table, caller and id: whoever may read may also write. */
  function CheckWritePermissions(t: Table, caller: Option<UserId>, documentId: DocId): (r: Outcome)
    ensures r == CheckPermissions(t, caller, documentId)
  {
    match caller
    case None => Fail(NotAuthenticated)
    case Some(userId) =>
      if documentId !in t then Fail(NotFound)
      else
        var document := t[documentId];
        if !document.isPublic && document.createdBy != userId then Fail(AccessDenied)
        else Pass
  }

  /** The sync hooks let through exactly the callers `get` returns the row to;
      they differ from `get` only on a missing id, where `get` answers null and
      the hooks throw "Document not found". */
  lemma SyncReadAgreesWithGet(t: Table, caller: Option<UserId>, id: DocId)
    ensures CheckPermissions(t, caller, id) == Pass <==> id in t && Get(t, caller, id) == Ok(Some(t[id]))
    ensures caller.Some? && id !in t ==>
      Get(t, caller, id) == Ok(None) && CheckPermissions(t, caller, id) == Fail(NotFound)
    ensures Get(t, caller, id).Err? ==> CheckPermissions(t, caller, id) == Fail(Get(t, caller, id).error)
  {
  }

  /** Every mutation's owner check is stricter than the sync hooks: an owner may
      always edit, and a non-owner only a public document. */
  lemma OwnerMayEdit(t: Table, caller: Option<UserId>, id: DocId)
    ensures CheckOwner(t, caller, id) == Pass ==> CheckWritePermissions(t, caller, id) == Pass
    ensures CheckWritePermissions(t, caller, id) == Pass && CheckOwner(t, caller, id) != Pass ==>
      t[id].isPublic && CheckOwner(t, caller, id) == Fail(AccessDenied)
  {
  }

  /** After `remove`, the hooks answer "Document not found" to everybody signed
      in and `getPublic` answers null. */
  lemma RemovedIsGone(t: Table, id: DocId, user: UserId)
    ensures CheckPermissions(t - {id}, Some(user), id) == Fail(NotFound)
    ensures GetPublic(t - {id}, id) == None
  {
  }

  /** `onSnapshot`: no permission check; touches `lastModified` of the row if
      it is still there, and nothing else. */
  method OnSnapshot(store: DocumentStore, id: DocId, now: Timestamp)
    requires store.Valid()
    modifies store
    ensures store.Valid() && store.nextId == old(store.nextId)
    ensures id in old(store.table) ==>
      store.table == old(store.table)[id := old(store.table)[id].(lastModified := now)]
    ensures id !in old(store.table) ==> store.table == old(store.table)
  {
    if id in store.table {
      var document := store.table[id];
      store.table := store.table[id := document.(lastModified := now)];
    }
  }
}
