/**
 * The ordered collection of dialogs: the specification of its upsert and
 * removal (performed in place by the client) and its two last-match-wins
 * lookups.
 */
module DialogStore {
  import opened Wrappers
  import opened Messages

  /** No two dialogs of the store share an id. */
  predicate UniqueIds(ds: seq<Dialog>)
  {
    forall i, j :: 0 <= i < j < |ds| ==> ds[i].id != ds[j].id
  }

  predicate HasId(ds: seq<Dialog>, id: string)
  {
    exists i :: 0 <= i < |ds| && ds[i].id == id
  }

  /** Index of the last dialog with `id`, as a forward scan that records every match finds it. */
  function LastIndexWithId(ds: seq<Dialog>, id: string): (r: Option<nat>)
    ensures r.None? <==> !HasId(ds, id)
    ensures r.Some? ==> r.value < |ds| && ds[r.value].id == id
    ensures r.Some? ==> forall j :: r.value < j < |ds| ==> ds[j].id != id
  {
    if ds == [] then None
    else if ds[|ds| - 1].id == id then Some(|ds| - 1)
    else LastIndexWithId(ds[..|ds| - 1], id)
  }

  /** Index of the last dialog whose state is ACTIVE. */
  function LastActiveIndex(ds: seq<Dialog>): (r: Option<nat>)
    ensures r.None? <==> forall i :: 0 <= i < |ds| ==> ds[i].state != ActiveState
    ensures r.Some? ==> r.value < |ds| && ds[r.value].state == ActiveState
    ensures r.Some? ==> forall j :: r.value < j < |ds| ==> ds[j].state != ActiveState
  {
    if ds == [] then None
    else if ds[|ds| - 1].state == ActiveState then Some(|ds| - 1)
    else LastActiveIndex(ds[..|ds| - 1])
  }

  /** The dialog with `id`; the last one in store order should there be several. */
  function DialogWithId(ds: seq<Dialog>, id: string): (r: Option<Dialog>)
    ensures r.None? <==> !HasId(ds, id)
    ensures r.Some? ==> r.value.id == id && r.value in ds
    ensures r.Some? ==>
      exists i :: 0 <= i < |ds| && ds[i] == r.value && forall j :: i < j < |ds| ==> ds[j].id != id
    ensures UniqueIds(ds) ==> forall i :: 0 <= i < |ds| && ds[i].id == id ==> r == Some(ds[i])
  {
    match LastIndexWithId(ds, id)
    case Some(i) => Some(ds[i])
    case None => None
  }

  /** The ACTIVE dialog; the last one in store order should there be several. */
  function ActiveDialog(ds: seq<Dialog>): (r: Option<Dialog>)
    ensures r.None? <==> forall i :: 0 <= i < |ds| ==> ds[i].state != ActiveState
    ensures r.Some? ==> r.value.state == ActiveState && r.value in ds
    ensures r.Some? ==>
      exists i :: 0 <= i < |ds| && ds[i] == r.value && forall j :: i < j < |ds| ==> ds[j].state != ActiveState
  {
    match LastActiveIndex(ds)
    case Some(i) => Some(ds[i])
    case None => None
  }

  /** Every dialog with `d`'s id replaced by `d`, in place. */
  function ReplaceById(ds: seq<Dialog>, d: Dialog): (r: seq<Dialog>)
    ensures |r| == |ds|
    ensures forall i :: 0 <= i < |ds| && ds[i].id == d.id ==> r[i] == d
    ensures forall i :: 0 <= i < |ds| && ds[i].id != d.id ==> r[i] == ds[i]
  {
    if ds == [] then []
    else [if ds[0].id == d.id then d else ds[0]] + ReplaceById(ds[1..], d)
  }

  /** The store after a `new-dialog` or `dialog-update` carrying `d`. */
  function Upserted(ds: seq<Dialog>, d: Dialog): (r: seq<Dialog>)
    ensures |r| == if HasId(ds, d.id) then |ds| else |ds| + 1
    ensures d in r
  {
    if HasId(ds, d.id) then ReplaceById(ds, d) else ds + [d]
  }

  /** The position `splice` starts at on `end-dialog`: the last match, or 0
      when there is none (`splice(undefined, 1)` removes the first element). */
  function SpliceStart(ds: seq<Dialog>, id: string): (k: nat)
    ensures ds != [] ==> k < |ds|
    ensures HasId(ds, id) ==> ds[k].id == id && forall j :: k < j < |ds| ==> ds[j].id != id
    ensures !HasId(ds, id) ==> k == 0
  {
    match LastIndexWithId(ds, id)
    case Some(i) => i
    case None => 0
  }

  /** The store after an `end-dialog` naming `id`. */
  function Removed(ds: seq<Dialog>, id: string): (r: seq<Dialog>)
    ensures |r| == if ds == [] then 0 else |ds| - 1
  {
    if ds == [] then ds
    else
      var k := SpliceStart(ds, id);
      ds[..k] + ds[k + 1..]
  }

  /** An update of a known dialog replaces it at its position and touches nothing else. */
  lemma UpsertKnownReplacesInPlace(ds: seq<Dialog>, d: Dialog, i: nat)
    requires UniqueIds(ds) && i < |ds| && ds[i].id == d.id
    ensures Upserted(ds, d) == ds[i := d]
  {
    assert HasId(ds, d.id);
    var r := Upserted(ds, d);
    assert |r| == |ds[i := d]|;
    forall j | 0 <= j < |ds|
      ensures r[j] == ds[i := d][j]
    {
      if j != i {
        assert ds[j].id != d.id by {
          if j < i { assert ds[j].id != ds[i].id; } else { assert ds[i].id != ds[j].id; }
        }
      }
    }
  }

  /** A dialog with a new id is appended at the end. */
  lemma UpsertNewAppends(ds: seq<Dialog>, d: Dialog)
    requires !HasId(ds, d.id)
    ensures Upserted(ds, d) == ds + [d]
    ensures |Upserted(ds, d)| == |ds| + 1
  {
  }

  /** Upsert keeps ids unique. */
  lemma UpsertKeepsIdsUnique(ds: seq<Dialog>, d: Dialog)
    requires UniqueIds(ds)
    ensures UniqueIds(Upserted(ds, d))
  {
    var r := Upserted(ds, d);
    if HasId(ds, d.id) {
      forall i, j | 0 <= i < j < |r|
        ensures r[i].id != r[j].id
      {
        assert r[i].id == ds[i].id && r[j].id == ds[j].id;
      }
    } else {
      forall i, j | 0 <= i < j < |r|
        ensures r[i].id != r[j].id
      {
        if j == |ds| {
          assert r[j] == d && r[i] == ds[i];
        }
      }
    }
  }

  /** After an upsert of `d`, looking up its id yields `d`. */
  lemma UpsertThenFind(ds: seq<Dialog>, d: Dialog)
    ensures DialogWithId(Upserted(ds, d), d.id) == Some(d)
  {
    var r := Upserted(ds, d);
    if HasId(ds, d.id) {
      assert HasId(r, d.id) by {
        var i :| 0 <= i < |ds| && ds[i].id == d.id;
        assert r[i].id == d.id;
      }
    } else {
      assert r[|ds|] == d;
    }
    var k := LastIndexWithId(r, d.id).value;
    assert r[k] == d;
  }

  /** An upsert of `d` leaves the lookup of every other id as it was. */
  lemma UpsertKeepsOtherLookups(ds: seq<Dialog>, d: Dialog, id: string)
    requires UniqueIds(ds) && id != d.id
    ensures DialogWithId(Upserted(ds, d), id) == DialogWithId(ds, id)
  {
    var r := Upserted(ds, d);
    UpsertKeepsIdsUnique(ds, d);
    if HasId(ds, id) {
      var i :| 0 <= i < |ds| && ds[i].id == id;
      assert r[i] == ds[i];
    }
  }

  /** Cutting one element out of a store keeps its ids unique. */
  lemma CutKeepsIdsUnique(ds: seq<Dialog>, k: nat)
    requires UniqueIds(ds) && k < |ds|
    ensures UniqueIds(ds[..k] + ds[k + 1..])
  {
    var r := ds[..k] + ds[k + 1..];
    assert |r| == |ds| - 1;
    forall i, j | 0 <= i < j < |r|
      ensures r[i].id != r[j].id
    {
      var i' := if i < k then i else i + 1;
      var j' := if j < k then j else j + 1;
      assert r[i] == ds[i'] by {
        if i < k { assert r[i] == ds[..k][i]; } else { assert r[i] == ds[k + 1..][i - k]; }
      }
      assert r[j] == ds[j'] by {
        if j < k { assert r[j] == ds[..k][j]; } else { assert r[j] == ds[k + 1..][j - k]; }
      }
      assert i' < j';
    }
  }

  /** Removal keeps ids unique (it only ever drops one element). */
  lemma RemoveKeepsIdsUnique(ds: seq<Dialog>, id: string)
    requires UniqueIds(ds)
    ensures UniqueIds(Removed(ds, id))
  {
    if ds != [] {
      var k := SpliceStart(ds, id);
      assert Removed(ds, id) == ds[..k] + ds[k + 1..];
      CutKeepsIdsUnique(ds, k);
    }
  }

  /** `end-dialog` for a stored id removes exactly its last entry and keeps the others in order;
      with unique ids the id is then gone and the store is one shorter. */
  lemma RemoveKnown(ds: seq<Dialog>, id: string, i: nat)
    requires LastIndexWithId(ds, id) == Some(i)
    ensures Removed(ds, id) == ds[..i] + ds[i + 1..]
    ensures |Removed(ds, id)| == |ds| - 1
    ensures UniqueIds(ds) ==> !HasId(Removed(ds, id), id)
  {
  }

  /** `end-dialog` on an empty store changes nothing. */
  lemma RemoveFromEmpty(id: string)
    ensures Removed([], id) == []
  {
  }

  /** `end-dialog` for an id that is not stored drops the FIRST dialog of a non-empty store. */
  lemma RemoveUnknownDropsFirst(ds: seq<Dialog>, id: string)
    requires ds != [] && !HasId(ds, id)
    ensures Removed(ds, id) == ds[1..]
  {
  }

  /** Upserting a new dialog and then ending it restores the store; ending an
      existing one after its update removes its slot. */
  lemma UpsertThenRemove(ds: seq<Dialog>, d: Dialog)
    requires UniqueIds(ds)
    ensures !HasId(ds, d.id) ==> Removed(Upserted(ds, d), d.id) == ds
    ensures HasId(ds, d.id) ==> |Removed(Upserted(ds, d), d.id)| == |ds| - 1
    ensures !HasId(Removed(Upserted(ds, d), d.id), d.id)
  {
    var r := Upserted(ds, d);
    UpsertKeepsIdsUnique(ds, d);
    UpsertThenFind(ds, d);
    var k := LastIndexWithId(r, d.id).value;
    RemoveKnown(r, d.id, k);
    if !HasId(ds, d.id) {
      assert k == |ds|;
      assert r[..k] == ds;
    }
  }

  /** The ids present in a sequence of dialogs. */
  function IdSet(ds: seq<Dialog>): set<string>
  {
    set i | 0 <= i < |ds| :: ds[i].id
  }

  /** The store after the upserts `us`, in order, starting from `ds`. */
  function UpsertAll(ds: seq<Dialog>, us: seq<Dialog>): seq<Dialog>
  {
    if us == [] then ds else Upserted(UpsertAll(ds, us[..|us| - 1]), us[|us| - 1])
  }

  lemma UpsertIdSet(ds: seq<Dialog>, d: Dialog)
    ensures IdSet(Upserted(ds, d)) == IdSet(ds) + {d.id}
  {
    var r := Upserted(ds, d);
    if HasId(ds, d.id) {
      forall id | id in IdSet(r) ensures id in IdSet(ds) + {d.id} {
        var i :| 0 <= i < |r| && r[i].id == id;
      }
      forall id | id in IdSet(ds) + {d.id} ensures id in IdSet(r) {
        if id == d.id {
          var i :| 0 <= i < |ds| && ds[i].id == d.id;
          assert r[i].id == id;
        } else {
          var i :| 0 <= i < |ds| && ds[i].id == id;
          assert r[i].id == id;
        }
      }
    } else {
      forall id | id in IdSet(r) ensures id in IdSet(ds) + {d.id} {
        var i :| 0 <= i < |r| && r[i].id == id;
        if i < |ds| { assert r[i] == ds[i]; }
      }
      forall id | id in IdSet(ds) + {d.id} ensures id in IdSet(r) {
        if id == d.id {
          assert r[|ds|].id == id;
        } else {
          var i :| 0 <= i < |ds| && ds[i].id == id;
          assert r[i].id == id;
        }
      }
    }
  }

  lemma IdSetSnoc(us: seq<Dialog>)
    requires us != []
    ensures IdSet(us) == IdSet(us[..|us| - 1]) + {us[|us| - 1].id}
  {
    var front := us[..|us| - 1];
    forall id | id in IdSet(us) ensures id in IdSet(front) + {us[|us| - 1].id} {
      var i :| 0 <= i < |us| && us[i].id == id;
      if i < |us| - 1 { assert front[i] == us[i]; }
    }
    forall id | id in IdSet(front) ensures id in IdSet(us) {
      var i :| 0 <= i < |front| && front[i].id == id;
      assert us[i] == front[i];
    }
  }

  /** An upsert grows the store exactly when it grows the set of ids. */
  lemma UpsertCount(ds: seq<Dialog>, d: Dialog)
    requires |ds| == |IdSet(ds)|
    ensures |Upserted(ds, d)| == |IdSet(Upserted(ds, d))|
  {
    UpsertIdSet(ds, d);
    if HasId(ds, d.id) {
      var i :| 0 <= i < |ds| && ds[i].id == d.id;
      assert d.id in IdSet(ds);
      assert IdSet(ds) + {d.id} == IdSet(ds);
    } else {
      assert d.id !in IdSet(ds);
    }
  }

  lemma {:induction false} UpsertAllUnique(us: seq<Dialog>)
    ensures UniqueIds(UpsertAll([], us))
  {
    if us != [] {
      UpsertAllUnique(us[..|us| - 1]);
      UpsertKeepsIdsUnique(UpsertAll([], us[..|us| - 1]), us[|us| - 1]);
    }
  }

  /** Upserting `us` into an empty store yields one dialog per distinct id. */
  lemma {:induction false} UpsertAllShape(us: seq<Dialog>)
    ensures UniqueIds(UpsertAll([], us))
    ensures IdSet(UpsertAll([], us)) == IdSet(us)
    ensures |UpsertAll([], us)| == |IdSet(us)|
  {
    if us != [] {
      var front := us[..|us| - 1];
      var d := us[|us| - 1];
      var prev := UpsertAll([], front);
      UpsertAllShape(front);
      UpsertKeepsIdsUnique(prev, d);
      UpsertIdSet(prev, d);
      UpsertCount(prev, d);
      IdSetSnoc(us);
    }
  }

  /** After the upserts `us`, each id used maps to the dialog most recently upserted with it. */
  lemma {:induction false} UpsertAllLookup(us: seq<Dialog>, k: nat)
    requires k < |us| && forall j :: k < j < |us| ==> us[j].id != us[k].id
    ensures DialogWithId(UpsertAll([], us), us[k].id) == Some(us[k])
  {
    var n := |us|;
    var front := us[..n - 1];
    var d := us[n - 1];
    var prev := UpsertAll([], front);
    assert UpsertAll([], us) == Upserted(prev, d);
    if k == n - 1 {
      UpsertThenFind(prev, d);
    } else {
      assert front[k] == us[k];
      assert us[k].id != d.id;
      assert forall j :: k < j < |front| ==> front[j].id != front[k].id by {
        forall j | k < j < |front| ensures front[j].id != front[k].id {
          assert front[j] == us[j];
        }
      }
      UpsertAllLookup(front, k);
      UpsertAllLookupStep(front, d, us[k]);
    }
  }

  /** One more upsert of another id keeps a lookup in a run of upserts. */
  lemma UpsertAllLookupStep(front: seq<Dialog>, d: Dialog, e: Dialog)
    requires e.id != d.id && DialogWithId(UpsertAll([], front), e.id) == Some(e)
    ensures DialogWithId(Upserted(UpsertAll([], front), d), e.id) == Some(e)
  {
    UpsertAllUnique(front);
    UpsertKeepsOtherLookups(UpsertAll([], front), d, e.id);
  }
}
