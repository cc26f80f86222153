/**
 * The "notes" document collection of the hosted store, as the view uses it:
 * documents keyed by id, a query by owner, and the three writes. Whether the
 * backend rejects a write (unavailable, permission denied) is an input.
 */
module Store {
  import opened Wrappers
  import opened NoteModel

  /** The owner's notes among ids below `bound`, in id order. */
  function OwnedBy(records: map<Id, Note>, uid: string, bound: nat): (r: seq<Note>)
    ensures |r| <= bound
    ensures forall n :: n in r ==> n.userId == uid && n in records.Values
  {
    if bound == 0 then []
    else
      var id := bound - 1;
      OwnedBy(records, uid, id) + (if id in records && records[id].userId == uid then [records[id]] else [])
  }

  /** A note is in the owner's query result exactly when it is stored under
      an id below the bound and belongs to that owner. */
  lemma {:induction false} OwnedByMembership(records: map<Id, Note>, uid: string, bound: nat, n: Note)
    ensures n in OwnedBy(records, uid, bound) <==>
      exists id: Id :: id < bound && id in records && records[id] == n && n.userId == uid
  {
    if bound > 0 {
      OwnedByMembership(records, uid, bound - 1, n);
    }
  }

  /** When every document sits under its own id, the result lists the owner's
      documents in strictly increasing id order, so none appears twice. */
  lemma {:induction false} OwnedByIdsIncrease(records: map<Id, Note>, uid: string, bound: nat)
    requires forall id :: id in records ==> records[id].id == id
    ensures forall n :: n in OwnedBy(records, uid, bound) ==> n.id < bound
    ensures forall i, j :: 0 <= i < j < |OwnedBy(records, uid, bound)| ==>
      OwnedBy(records, uid, bound)[i].id < OwnedBy(records, uid, bound)[j].id
  {
    if bound > 0 {
      OwnedByIdsIncrease(records, uid, bound - 1);
    }
  }

  /** Writing under an id at or above the bound does not change the result. */
  lemma {:induction false} OwnedByFrame(records: map<Id, Note>, uid: string, bound: nat, id: Id, n: Note)
    requires bound <= id
    ensures OwnedBy(records[id := n], uid, bound) == OwnedBy(records, uid, bound)
  {
    if bound > 0 {
      OwnedByFrame(records, uid, bound - 1, id, n);
    }
  }

  /** A document created under the next id joins the end of its owner's
      result, and no other owner's result changes. */
  lemma AddExtendsQuery(records: map<Id, Note>, bound: nat, n: Note, uid: string)
    ensures OwnedBy(records[bound := n], uid, bound + 1) ==
      OwnedBy(records, uid, bound) + (if n.userId == uid then [n] else [])
  {
    OwnedByFrame(records, uid, bound, bound, n);
  }

  class NoteStore {
    var records: map<Id, Note>
    var nextId: Id   // the id the next created document receives

    /** Every document sits under its own id, and ids are issued in order. */
    ghost predicate Valid()
      reads this
    {
      forall id :: id in records ==> id < nextId && records[id].id == id
    }

    constructor ()
      ensures Valid() && records == map[] && nextId == 0
    {
      records := map[];
      nextId := 0;
    }

    /** `query(collection, where("userId", "==", uid))`. */
    function Query(uid: string): (r: seq<Note>)
      reads this
      ensures forall n :: n in r ==> n.userId == uid && n in records.Values
    {
      OwnedBy(records, uid, nextId)
    }

    /** `addDoc`: a new document under a fresh id, stamped with the server's clock. */
    method Add(userId: string, content: string, tags: seq<string>, pinned: bool, now: nat, fault: bool)
      returns (id: Option<Id>)
      requires Valid()
      modifies this
      ensures Valid()
      ensures fault ==> id == None && records == old(records) && nextId == old(nextId)
      ensures !fault ==>
        && id == Some(old(nextId))
        && old(nextId) !in old(records)
        && records == old(records)[old(nextId) := Note(old(nextId), userId, content, Some(tags), pinned, Some(now))]
        && nextId == old(nextId) + 1
      ensures !fault ==> Query(userId) == old(Query(userId)) + [records[old(nextId)]]
    {
      if fault {
        return None;
      }
      AddExtendsQuery(records, nextId, Note(nextId, userId, content, Some(tags), pinned, Some(now)), userId);
      id := Some(nextId);
      records := records[nextId := Note(nextId, userId, content, Some(tags), pinned, Some(now))];
      nextId := nextId + 1;
    }

    /** `updateDoc(id, {content, tags})`: fails when the document does not exist. */
    method UpdateContent(id: Id, content: string, tags: seq<string>, fault: bool) returns (ok: bool)
      requires Valid()
      modifies this
      ensures Valid() && nextId == old(nextId)
      ensures ok <==> !fault && id in old(records)
      ensures ok ==> records == old(records)[id := old(records)[id].(content := content, tags := Some(tags))]
      ensures !ok ==> records == old(records)
    {
      ok := !fault && id in records;
      if ok {
        records := records[id := records[id].(content := content, tags := Some(tags))];
      }
    }

    /** `updateDoc(id, {pinned})`: fails when the document does not exist. */
    method UpdatePinned(id: Id, pinned: bool, fault: bool) returns (ok: bool)
      requires Valid()
      modifies this
      ensures Valid() && nextId == old(nextId)
      ensures ok <==> !fault && id in old(records)
      ensures ok ==> records == old(records)[id := old(records)[id].(pinned := pinned)]
      ensures !ok ==> records == old(records)
    {
      ok := !fault && id in records;
      if ok {
        records := records[id := records[id].(pinned := pinned)];
      }
    }

    /** `deleteDoc`: deleting a document that is already gone succeeds and changes nothing. */
    method Delete(id: Id, fault: bool) returns (ok: bool)
      requires Valid()
      modifies this
      ensures Valid() && nextId == old(nextId)
      ensures ok <==> !fault
      ensures ok ==> records == old(records) - {id}
      ensures !ok ==> records == old(records)
    {
      ok := !fault;
      if ok {
        records := records - {id};
      }
    }
  }

  /** The owner's query result holds exactly the owner's stored documents. */
  lemma QueryIsOwnedDocuments(store: NoteStore, uid: string, n: Note)
    requires store.Valid()
    ensures n in store.Query(uid) <==> n in store.records.Values && n.userId == uid
  {
    OwnedByMembership(store.records, uid, store.nextId, n);
    if n in store.records.Values && n.userId == uid {
      var id :| id in store.records && store.records[id] == n;
      assert id < store.nextId;
    }
  }

  /** The owner's query lists each of the owner's documents once, in id order. */
  lemma QueryIdsIncrease(store: NoteStore, uid: string)
    requires store.Valid()
    ensures forall i, j :: 0 <= i < j < |store.Query(uid)| ==> store.Query(uid)[i].id < store.Query(uid)[j].id
  {
    OwnedByIdsIncrease(store.records, uid, store.nextId);
  }

  /** Once deleted, a document is in no owner's query result. */
  lemma DeletedNotInQuery(store: NoteStore, uid: string, id: Id, n: Note)
    requires store.Valid() && id !in store.records
    requires n.id == id
    ensures n !in store.Query(uid)
  {
    QueryIsOwnedDocuments(store, uid, n);
  }
}
