/** Exporting a collection and importing it again (internal/httpapi/collections.go). The
    JSON in between is taken as the value it denotes. */
module Transfer {
  import opened Wrappers
  import opened Collections

  datatype ExpFolder = ExpFolder(id: nat, parent: Option<nat>, name: string)
  datatype ExpRequest = ExpRequest(id: nat, folder: Option<nat>, content: Content)
  datatype Exported = Exported(name: string, folders: seq<ExpFolder>, requests: seq<ExpRequest>)

  // ---- Export ----

  function FolderRows(db: Db, ids: seq<nat>): (rows: seq<ExpFolder>)
    requires forall i | 0 <= i < |ids| :: ids[i] in db.folders
    ensures |rows| == |ids|
  {
    seq(|ids|, i requires 0 <= i < |ids| => ExpFolder(ids[i], db.folders[ids[i]].parent, db.folders[ids[i]].name))
  }

  function RequestRows(db: Db, ids: seq<nat>): (rows: seq<ExpRequest>)
    requires forall i | 0 <= i < |ids| :: ids[i] in db.requests
    ensures |rows| == |ids|
  {
    seq(|ids|, i requires 0 <= i < |ids| => ExpRequest(ids[i], db.requests[ids[i]].folder, db.requests[ids[i]].content))
  }

  function Export(db: Db, c: nat): Exported
    requires c in db.collections
  {
    Exported(db.collections[c], FolderRows(db, SortedIds(FolderIds(db, c))),
             RequestRows(db, SortedIds(RequestIds(db, c))))
  }

  method ExportCollection(store: Database, c: nat) returns (e: Exported)
    requires c in store.collections
    ensures e == Export(store.State(), c)
    ensures Lists(store.State(), c, e)
  {
    var db := store.State();
    var folders := ExportFolders(db, SortedIds(FolderIds(db, c)));
    var requests := ExportRequests(db, SortedIds(RequestIds(db, c)));
    e := Exported(db.collections[c], folders, requests);
    ExportLists(db, c);
    hide Lists;
  }

  ghost predicate ListsFolders(db: Db, c: nat, fs: seq<ExpFolder>) {
    && (forall f :: f in db.folders && db.folders[f].collection == c <==> exists i :: 0 <= i < |fs| && fs[i].id == f)
    && (forall i, j | 0 <= i < j < |fs| :: fs[i].id < fs[j].id)
    && forall i | 0 <= i < |fs| ::
         && fs[i].id in db.folders && fs[i].parent == db.folders[fs[i].id].parent
         && fs[i].name == db.folders[fs[i].id].name
  }

  ghost predicate ListsRequests(db: Db, c: nat, rs: seq<ExpRequest>) {
    && (forall r :: r in db.requests && db.requests[r].collection == c <==> exists i :: 0 <= i < |rs| && rs[i].id == r)
    && (forall i, j | 0 <= i < j < |rs| :: rs[i].id < rs[j].id)
    && forall i | 0 <= i < |rs| ::
         && rs[i].id in db.requests && rs[i].folder == db.requests[rs[i].id].folder
         && rs[i].content == db.requests[rs[i].id].content
  }

  /** The document holds every row of the collection once, in id order, field by field. */
  ghost predicate Lists(db: Db, c: nat, e: Exported) {
    && c in db.collections && e.name == db.collections[c]
    && ListsFolders(db, c, e.folders) && ListsRequests(db, c, e.requests)
  }

  lemma AllListed(s: set<nat>, x: nat)
    ensures x in s ==> exists i :: 0 <= i < |SortedIds(s)| && SortedIds(s)[i] == x
  {
    hide SortedIds;
    if x in s { assert x in SortedIds(s); }
  }

  lemma ExportLists(db: Db, c: nat)
    requires c in db.collections
    ensures Lists(db, c, Export(db, c))
  {
    hide SortedIds;
    FoldersLists(db, c);
    RequestsLists(db, c);
    hide ListsFolders, ListsRequests, FolderRows, RequestRows, FolderIds, RequestIds;
  }

  lemma FoldersLists(db: Db, c: nat)
    ensures ListsFolders(db, c, FolderRows(db, SortedIds(FolderIds(db, c))))
  {
    hide SortedIds;
    var ids := SortedIds(FolderIds(db, c));
    var fs := FolderRows(db, ids);
    assert forall i | 0 <= i < |fs| :: fs[i].id == ids[i] && ids[i] in FolderIds(db, c);
    forall f ensures f in db.folders && db.folders[f].collection == c <==> exists i :: 0 <= i < |fs| && fs[i].id == f {
      AllListed(FolderIds(db, c), f);
      if f in FolderIds(db, c) {
        var i :| 0 <= i < |ids| && ids[i] == f;
        assert fs[i].id == f;
      }
    }
  }

  lemma RequestsLists(db: Db, c: nat)
    ensures ListsRequests(db, c, RequestRows(db, SortedIds(RequestIds(db, c))))
  {
    hide SortedIds;
    var ids := SortedIds(RequestIds(db, c));
    var rs := RequestRows(db, ids);
    assert forall i | 0 <= i < |rs| :: rs[i].id == ids[i] && ids[i] in RequestIds(db, c);
    forall r
      ensures r in db.requests && db.requests[r].collection == c <==> exists i :: 0 <= i < |rs| && rs[i].id == r
    {
      AllListed(RequestIds(db, c), r);
      if r in RequestIds(db, c) {
        var i :| 0 <= i < |ids| && ids[i] == r;
        assert rs[i].id == r;
      }
    }
  }

  method ExportFolders(db: Db, ids: seq<nat>) returns (out: seq<ExpFolder>)
    requires forall i | 0 <= i < |ids| :: ids[i] in db.folders
    ensures out == FolderRows(db, ids)
  {
    out := [];
    for i := 0 to |ids|
      invariant out == FolderRows(db, ids[..i])
    {
      var x := db.folders[ids[i]];
      out := out + [ExpFolder(ids[i], x.parent, x.name)];
    }
    assert ids[..|ids|] == ids;
  }

  method ExportRequests(db: Db, ids: seq<nat>) returns (out: seq<ExpRequest>)
    requires forall i | 0 <= i < |ids| :: ids[i] in db.requests
    ensures out == RequestRows(db, ids)
  {
    out := [];
    for i := 0 to |ids|
      invariant out == RequestRows(db, ids[..i])
    {
      var x := db.requests[ids[i]];
      out := out + [ExpRequest(ids[i], x.folder, x.content)];
    }
    assert ids[..|ids|] == ids;
  }

  // ---- Import ----

  /** Where an exported reference points now; anything unknown becomes no reference. */
  function Mapped(ids: map<nat, nat>, p: Option<nat>): Option<nat> {
    if p.Some? && p.value in ids then Some(ids[p.value]) else None
  }

  /** The store and oldToNew part-way through the folder loop. */
  datatype Progress = Progress(db: Db, ids: map<nat, nat>)

  function AddFolder(p: Progress, c: nat, f: ExpFolder): Progress {
    var id := NextId(p.db.folders.Keys);
    Progress(p.db.(folders := p.db.folders[id := Folder(c, Mapped(p.ids, f.parent), f.name)]), p.ids[f.id := id])
  }

  function FoldersIn(db: Db, c: nat, fs: seq<ExpFolder>): Progress {
    if fs == [] then Progress(db, map[]) else AddFolder(FoldersIn(db, c, fs[..|fs| - 1]), c, fs[|fs| - 1])
  }

  function RequestFrom(c: nat, ids: map<nat, nat>, r: ExpRequest): Request {
    Request(c, Mapped(ids, r.folder), r.content, false)
  }

  /** The request loop: it stops at the first row the table refuses. */
  function RequestsIn(db: Db, c: nat, ids: map<nat, nat>, rs: seq<ExpRequest>): (Db, bool) {
    if rs == [] then (db, true)
    else
      var (d, ok) := RequestsIn(db, c, ids, rs[..|rs| - 1]);
      if !ok then (d, false)
      else
        match CreateRequest(d, RequestFrom(c, ids, rs[|rs| - 1]))
        case Done(d', _) => (d', true)
        case Refused => (d, false)
  }

  /** The state after an import, the new collection, and whether every row went in. */
  datatype Imported = Imported(db: Db, id: nat, ok: bool)

  function Import(db: Db, e: Exported): Imported {
    match CreateCollection(db, e.name)
    case Refused => Imported(db, 0, false)
    case Done(d, c) =>
      var p := FoldersIn(d, c, e.folders);
      var (d', ok) := RequestsIn(p.db, c, p.ids, e.requests);
      Imported(d', c, ok)
  }

  /** Rows already created during an import exist. */
  ghost predicate Pointing(p: Progress) {
    forall k | k in p.ids :: p.ids[k] in p.db.folders
  }

  lemma {:induction false} FoldersInPointing(db: Db, c: nat, fs: seq<ExpFolder>)
    ensures Pointing(FoldersIn(db, c, fs)) && FoldersIn(db, c, fs).db.collections == db.collections
  {
    if fs != [] { FoldersInPointing(db, c, fs[..|fs| - 1]); }
  }

  method ImportCollection(store: Database, e: Exported) returns (id: nat, ok: bool)
    modifies store
    ensures Imported(store.State(), id, ok) == Import(old(store.State()), e)
  {
    var made := store.InsertCollection(e.name);
    if made.None? { return 0, false; }
    id := made.value;
    ghost var d := store.State();
    hide FoldersIn, RequestsIn, Stored;
    assert d == CreateCollection(old(store.State()), e.name).db;
    var oldToNew := ImportFolders(store, id, e.folders);
    ok := ImportRequests(store, id, oldToNew, e.requests);
  }

  method ImportFolders(store: Database, c: nat, fs: seq<ExpFolder>) returns (oldToNew: map<nat, nat>)
    requires c in store.collections
    modifies store
    ensures Progress(store.State(), oldToNew) == FoldersIn(old(store.State()), c, fs)
  {
    ghost var d := store.State();
    oldToNew := map[];
    for i := 0 to |fs|
      invariant Progress(store.State(), oldToNew) == FoldersIn(d, c, fs[..i])
      invariant c in store.collections
    {
      assert fs[..i + 1][..i] == fs[..i];
      FoldersInPointing(d, c, fs[..i]);
      var nid := store.InsertFolder(c, Mapped(oldToNew, fs[i].parent), fs[i].name);
      oldToNew := oldToNew[fs[i].id := nid.value];
    }
    assert fs[..|fs|] == fs;
  }

  method ImportRequests(store: Database, c: nat, oldToNew: map<nat, nat>, rs: seq<ExpRequest>) returns (ok: bool)
    modifies store
    ensures (store.State(), ok) == RequestsIn(old(store.State()), c, oldToNew, rs)
  {
    ghost var d := store.State();
    hide Stored;
    for i := 0 to |rs|
      invariant (store.State(), true) == RequestsIn(d, c, oldToNew, rs[..i])
    {
      assert rs[..i + 1][..i] == rs[..i];
      var rid := store.InsertRequest(RequestFrom(c, oldToNew, rs[i]));
      if rid.None? {
        StopsEarly(d, c, oldToNew, rs, i + 1);
        return false;
      }
    }
    assert rs[..|rs|] == rs;
    ok := true;
  }

  lemma {:induction false} StopsEarly(db: Db, c: nat, ids: map<nat, nat>, rs: seq<ExpRequest>, n: nat)
    requires n <= |rs| && !RequestsIn(db, c, ids, rs[..n]).1
    ensures RequestsIn(db, c, ids, rs) == RequestsIn(db, c, ids, rs[..n])
    decreases |rs|
  {
    if n == |rs| {
      assert rs[..n] == rs;
    } else {
      var before := rs[..|rs| - 1];
      assert before[..n] == rs[..n];
      StopsEarly(db, c, ids, before, n);
    }
  }

  // ---- What the folder loop builds ----

  ghost predicate DistinctIds(fs: seq<ExpFolder>) {
    forall i, j | 0 <= i < j < |fs| :: fs[i].id != fs[j].id
  }

  /** The next id after the largest of s has been taken n times. */
  lemma NextIdAfter(s: set<nat>)
    ensures NextId(s + {NextId(s)}) == NextId(s) + 1
  {
    assert NextId(s) in s + {NextId(s)};
  }

  lemma AddFolderKeys(p: Progress, c: nat, f: ExpFolder)
    ensures var d, id := AddFolder(p, c, f).db, NextId(p.db.folders.Keys);
            && d.collections == p.db.collections && d.requests == p.db.requests
            && NextId(d.folders.Keys) == id + 1
            && (forall k :: k in d.folders <==> k in p.db.folders || k == id)
            && (forall k | k in p.db.folders :: d.folders[k] == p.db.folders[k])
            && d.folders[id] == Folder(c, Mapped(p.ids, f.parent), f.name)
  {
    NextIdAfter(p.db.folders.Keys);
    var d, id := AddFolder(p, c, f).db, NextId(p.db.folders.Keys);
    assert d.folders.Keys == p.db.folders.Keys + {id};
  }

  /** New rows get consecutive ids from base; old rows stay. */
  ghost predicate Extends(db: Db, d: Db, n: nat) {
    var base := NextId(db.folders.Keys);
    && d.collections == db.collections && d.requests == db.requests
    && NextId(d.folders.Keys) == base + n
    && (forall k :: k in d.folders <==> k in db.folders || base <= k < base + n)
    && (forall k | k in db.folders :: d.folders[k] == db.folders[k])
  }

  lemma FoldersInStep(db: Db, c: nat, fs: seq<ExpFolder>)
    requires fs != []
    ensures FoldersIn(db, c, fs) == AddFolder(FoldersIn(db, c, fs[..|fs| - 1]), c, fs[|fs| - 1])
  {
  }

  lemma {:induction false} FolderLoopExtends(db: Db, c: nat, fs: seq<ExpFolder>)
    ensures Extends(db, FoldersIn(db, c, fs).db, |fs|)
    ensures NextId(FoldersIn(db, c, fs).db.folders.Keys) == NextId(db.folders.Keys) + |fs|
  {
    if fs != [] {
      var n := |fs| - 1;
      hide NextId, AddFolder;
      FolderLoopExtends(db, c, fs[..n]);
      FoldersInStep(db, c, fs);
      AddFolderKeys(FoldersIn(db, c, fs[..n]), c, fs[n]);
    }
  }

  lemma {:induction false} FolderLoopRow(db: Db, c: nat, fs: seq<ExpFolder>, i: nat)
    requires i < |fs|
    ensures var d, base := FoldersIn(db, c, fs).db, NextId(db.folders.Keys);
            && base + i in d.folders
            && d.folders[base + i] == Folder(c, Mapped(FoldersIn(db, c, fs[..i]).ids, fs[i].parent), fs[i].name)
  {
    hide *;
    var n := |fs| - 1;
    FoldersInStep(db, c, fs);
    FolderLoopExtends(db, c, fs[..n]);
    AddFolderKeys(FoldersIn(db, c, fs[..n]), c, fs[n]);
    if i < n {
      FolderLoopRow(db, c, fs[..n], i);
      assert fs[..n][..i] == fs[..i];
    }
  }

  lemma AddFolderIds(p: Progress, c: nat, f: ExpFolder, k: nat)
    ensures var ids := AddFolder(p, c, f).ids;
            if k == f.id then k in ids && ids[k] == NextId(p.db.folders.Keys)
            else (k in ids <==> k in p.ids) && (k in ids ==> ids[k] == p.ids[k])
  {
    hide NextId, Mapped;
  }

  /** oldToNew sends the i-th exported id to the i-th new one, and nothing else anywhere. */
  lemma {:induction false} FolderLoopIds(db: Db, c: nat, fs: seq<ExpFolder>, k: nat)
    requires DistinctIds(fs)
    ensures var ids, base := FoldersIn(db, c, fs).ids, NextId(db.folders.Keys);
            && (forall i | 0 <= i < |fs| && fs[i].id == k :: k in ids && ids[k] == base + i)
            && ((forall i | 0 <= i < |fs| :: fs[i].id != k) ==> k !in ids)
  {
    if fs != [] {
      var n := |fs| - 1;
      hide NextId, Mapped, AddFolder, Extends;
      assert DistinctIds(fs[..n]);
      FolderLoopIds(db, c, fs[..n], k);
      FolderLoopExtends(db, c, fs[..n]);
      FoldersInStep(db, c, fs);
      AddFolderIds(FoldersIn(db, c, fs[..n]), c, fs[n], k);
      hide FoldersIn;
      assert forall i | 0 <= i < n :: fs[..n][i] == fs[i];
    }
  }

  /** q names the j-th row from base when p names the j-th of fs, and nothing otherwise. */
  ghost predicate Follows(fs: seq<ExpFolder>, base: nat, p: Option<nat>, q: Option<nat>) {
    && (forall j | 0 <= j < |fs| && p == Some(fs[j].id) :: q == Some(base + j))
    && ((forall j | 0 <= j < |fs| :: p != Some(fs[j].id)) ==> q == None)
  }

  /** A reference to the j-th exported folder becomes one to the j-th new folder. */
  lemma MappedIs(db: Db, c: nat, fs: seq<ExpFolder>, p: Option<nat>)
    requires DistinctIds(fs)
    ensures Follows(fs, NextId(db.folders.Keys), p, Mapped(FoldersIn(db, c, fs).ids, p))
  {
    if p.Some? { FolderLoopIds(db, c, fs, p.value); }
    hide FoldersIn, NextId;
  }

  function Consecutive(base: nat, n: nat): (ids: seq<nat>)
    ensures |ids| == n && forall i | 0 <= i < n :: ids[i] == base + i
  {
    if n == 0 then [] else Consecutive(base, n - 1) + [base + n - 1]
  }

  function Range(base: nat, n: nat): (s: set<nat>)
    ensures forall k :: k in s <==> base <= k < base + n
  {
    if n == 0 then {} else Range(base, n - 1) + {base + n - 1}
  }

  lemma {:induction false} SortedRange(base: nat, n: nat)
    ensures SortedIds(Range(base, n)) == Consecutive(base, n)
  {
    if n > 0 {
      SortedRange(base, n - 1);
      SortedIdsSnoc(Range(base, n - 1), base + n - 1);
      hide SortedIds;
    }
  }

  // ---- What the request loop builds ----

  lemma CreateRequestKeys(db: Db, x: Request)
    requires RequestAllowed(db, x)
    ensures var r, id := CreateRequest(db, x), NextId(db.requests.Keys);
            && r.Done? && r.db.collections == db.collections && r.db.folders == db.folders
            && NextId(r.db.requests.Keys) == id + 1
            && (forall k :: k in r.db.requests <==> k in db.requests || k == id)
            && (forall k | k in db.requests :: r.db.requests[k] == db.requests[k])
            && r.db.requests[id] == x.(content := Stored(x.content))
  {
    NextIdAfter(db.requests.Keys);
    var d, id := CreateRequest(db, x).db, NextId(db.requests.Keys);
    assert d.requests.Keys == db.requests.Keys + {id};
  }

  ghost predicate RowsExtend(db: Db, d: Db, n: nat) {
    var base := NextId(db.requests.Keys);
    && d.collections == db.collections && d.folders == db.folders
    && NextId(d.requests.Keys) == base + n
    && (forall k :: k in d.requests <==> k in db.requests || base <= k < base + n)
    && (forall k | k in db.requests :: d.requests[k] == db.requests[k])
  }

  ghost predicate Importable(r: ExpRequest) {
    ValidVerb(r.content.verb) && Stored(r.content) == r.content
  }

  ghost predicate AllImportable(rs: seq<ExpRequest>) {
    forall i | 0 <= i < |rs| :: Importable(rs[i])
  }

  lemma RequestStep(db: Db, c: nat, ids: map<nat, nat>, rs: seq<ExpRequest>, d: Db)
    requires rs != [] && AllImportable(rs) && c in db.collections && Pointing(Progress(db, ids))
    requires RequestsIn(db, c, ids, rs[..|rs| - 1]) == (d, true) && RowsExtend(db, d, |rs| - 1)
    ensures RequestsIn(db, c, ids, rs).1 && RowsExtend(db, RequestsIn(db, c, ids, rs).0, |rs|)
    ensures var d', id := RequestsIn(db, c, ids, rs).0, NextId(db.requests.Keys) + |rs| - 1;
            && (forall k | k in d.requests :: k in d'.requests && d'.requests[k] == d.requests[k])
            && id in d'.requests && d'.requests[id] == RequestFrom(c, ids, rs[|rs| - 1])
  {
    var x := RequestFrom(c, ids, rs[|rs| - 1]);
    assert Importable(rs[|rs| - 1]);
    assert x.(content := Stored(x.content)) == x;
    hide NextId, CreateRequest, Stored, Importable;
    CreateRequestKeys(d, x);
  }

  lemma {:induction false} RequestLoopExtends(db: Db, c: nat, ids: map<nat, nat>, rs: seq<ExpRequest>)
    requires c in db.collections && Pointing(Progress(db, ids)) && AllImportable(rs)
    ensures RequestsIn(db, c, ids, rs).1 && RowsExtend(db, RequestsIn(db, c, ids, rs).0, |rs|)
  {
    if rs != [] {
      RequestLoopExtends(db, c, ids, rs[..|rs| - 1]);
      hide RowsExtend, CreateRequest, RequestsIn;
      RequestStep(db, c, ids, rs, RequestsIn(db, c, ids, rs[..|rs| - 1]).0);
    }
  }

  lemma {:induction false} RequestLoopRow(db: Db, c: nat, ids: map<nat, nat>, rs: seq<ExpRequest>, i: nat)
    requires c in db.collections && Pointing(Progress(db, ids)) && AllImportable(rs) && i < |rs|
    ensures var d, k := RequestsIn(db, c, ids, rs).0, NextId(db.requests.Keys) + i;
            k in d.requests && d.requests[k] == RequestFrom(c, ids, rs[i])
  {
    hide RowsExtend, CreateRequest, RequestsIn, RequestFrom, NextId, Pointing, Importable;
    var n := |rs| - 1;
    RequestLoopExtends(db, c, ids, rs[..n]);
    RequestStep(db, c, ids, rs, RequestsIn(db, c, ids, rs[..n]).0);
    if i < n { RequestLoopRow(db, c, ids, rs[..n], i); }
  }

  // ---- Export, import, export ----

  /** Every link of the collection stays inside it. */
  ghost predicate Local(db: Db, c: nat) {
    && (forall f | f in FolderIds(db, c) && db.folders[f].parent.Some? ::
          db.folders[f].parent.value in FolderIds(db, c))
    && (forall r | r in RequestIds(db, c) && db.requests[r].folder.Some? ::
          db.requests[r].folder.value in FolderIds(db, c))
  }

  /** No folder of the collection is its own parent. */
  ghost predicate NoneUnderItself(db: Db, c: nat) {
    forall f | f in FolderIds(db, c) :: !OwnParent(db, f)
  }

  /** p in fs and q in gs are both absent, or name folders at the same place. */
  ghost predicate SameLink(p: Option<nat>, fs: seq<ExpFolder>, q: Option<nat>, gs: seq<ExpFolder>)
    requires |fs| == |gs|
  {
    && (p.None? <==> q.None?)
    && forall j | 0 <= j < |fs| :: p == Some(fs[j].id) <==> q == Some(gs[j].id)
  }

  /** Equal up to a renumbering that keeps the order of rows. */
  ghost predicate SameShape(d: Exported, e: Exported) {
    && d.name == e.name && |d.folders| == |e.folders| && |d.requests| == |e.requests|
    && (forall i | 0 <= i < |d.folders| ::
          && d.folders[i].name == e.folders[i].name
          && SameLink(d.folders[i].parent, d.folders, e.folders[i].parent, e.folders))
    && (forall i | 0 <= i < |d.requests| ::
          && d.requests[i].content == e.requests[i].content
          && SameLink(d.requests[i].folder, d.folders, e.requests[i].folder, e.folders))
  }

  /** fs is a listing of db's folders by id; gs the same rows numbered from base. */
  ghost predicate Renumbered(fs: seq<ExpFolder>, gs: seq<ExpFolder>, base: nat) {
    && DistinctIds(fs) && |fs| == |gs|
    && forall j | 0 <= j < |gs| :: gs[j].id == base + j
  }

  ghost predicate Inside(fs: seq<ExpFolder>, p: Option<nat>) {
    p.None? || exists j :: 0 <= j < |fs| && fs[j].id == p.value
  }

  /** A link survives the renumbering exactly when it names a listed folder. */
  lemma LinkSurvivesIff(fs: seq<ExpFolder>, gs: seq<ExpFolder>, base: nat, p: Option<nat>, q: Option<nat>)
    requires Renumbered(fs, gs, base) && Follows(fs, base, p, q)
    ensures SameLink(p, fs, q, gs) <==> Inside(fs, p)
  {
    if j :| 0 <= j < |fs| && p == Some(fs[j].id) {
      assert q == Some(gs[j].id);
    }
  }

  /** Ids increase along the list and no parent has a larger id than its child. */
  ghost predicate Topological(fs: seq<ExpFolder>) {
    && (forall i, j | 0 <= i < j < |fs| :: fs[i].id < fs[j].id)
    && (forall i | 0 <= i < |fs| && fs[i].parent.Some? :: fs[i].parent.value <= fs[i].id)
  }

  lemma EarlierIndex(fs: seq<ExpFolder>, i: nat, j: nat)
    requires Topological(fs) && i < |fs| && j < |fs| && fs[j].id < fs[i].id
    ensures j < i
  {
  }

  /** In a topological list, what the i-th folder's parent is mapped to is settled before
      the i-th folder is reached, unless it is that folder itself. */
  lemma ParentIsMapped(db: Db, c: nat, fs: seq<ExpFolder>, i: nat)
    requires Topological(fs) && i < |fs| && fs[i].parent != Some(fs[i].id)
    ensures Follows(fs, NextId(db.folders.Keys), fs[i].parent, Mapped(FoldersIn(db, c, fs[..i]).ids, fs[i].parent))
  {
    MappedIs(db, c, fs[..i], fs[i].parent);
    hide FoldersIn, NextId, Mapped;
    forall j | 0 <= j < |fs| && fs[i].parent == Some(fs[j].id) ensures j < i && fs[..i][j] == fs[j] {
      EarlierIndex(fs, i, j);
    }
    assert forall j | 0 <= j < i :: fs[..i][j] == fs[j];
  }

  /** A folder under itself is looked up before it is in the map, and loses its link. */
  lemma OwnParentIsLost(db: Db, c: nat, fs: seq<ExpFolder>, i: nat)
    requires Topological(fs) && i < |fs| && fs[i].parent == Some(fs[i].id)
    ensures Mapped(FoldersIn(db, c, fs[..i]).ids, fs[i].parent) == None
  {
    MappedIs(db, c, fs[..i], fs[i].parent);
    hide FoldersIn, Mapped;
    assert forall j | 0 <= j < i :: fs[..i][j] == fs[j];
  }

  lemma ExportIsTopological(db: Db, c: nat)
    requires Inv(db) && c in db.collections
    ensures Topological(Export(db, c).folders) && AllImportable(Export(db, c).requests)
  {
    var e := Export(db, c);
    forall i | 0 <= i < |e.folders| && e.folders[i].parent.Some? ensures e.folders[i].parent.value <= e.folders[i].id {
      assert FolderOk(db, e.folders[i].id);
    }
    forall i | 0 <= i < |e.requests| ensures Importable(e.requests[i]) {
      assert RequestOk(db, e.requests[i].id);
    }
  }

  lemma NewFolderIds(db: Db, d: Db, n: nat, c: nat, base: nat)
    requires Extends(db, d, n) && base == NextId(db.folders.Keys)
    requires forall f | f in db.folders :: db.folders[f].collection != c
    requires forall f | base <= f < base + n :: f in d.folders && d.folders[f].collection == c
    ensures SortedIds(FolderIds(d, c)) == Consecutive(base, n)
  {
    hide NextId;
    assert FolderIds(d, c) == Range(base, n);
    SortedRange(base, n);
  }

  lemma NewRequestIds(db: Db, d: Db, n: nat, c: nat, base: nat)
    requires RowsExtend(db, d, n) && base == NextId(db.requests.Keys)
    requires forall r | r in db.requests :: db.requests[r].collection != c
    requires forall r | base <= r < base + n :: r in d.requests && d.requests[r].collection == c
    ensures SortedIds(RequestIds(d, c)) == Consecutive(base, n)
  {
    hide NextId;
    assert RequestIds(d, c) == Range(base, n);
    SortedRange(base, n);
  }

  lemma InsideIff(db: Db, c: nat, p: Option<nat>)
    requires c in db.collections
    ensures Inside(Export(db, c).folders, p) <==> p.None? || p.value in FolderIds(db, c)
  {
    var e, fs := Export(db, c), SortedIds(FolderIds(db, c));
    hide SortedIds;
    if p.Some? && p.value in FolderIds(db, c) {
      var j :| 0 <= j < |fs| && fs[j] == p.value;
      assert e.folders[j].id == p.value;
    }
  }

  lemma LocalIff(db: Db, c: nat)
    requires c in db.collections
    ensures var e := Export(db, c);
            Local(db, c) <==>
              && (forall i | 0 <= i < |e.folders| :: Inside(e.folders, e.folders[i].parent))
              && (forall i | 0 <= i < |e.requests| :: Inside(e.folders, e.requests[i].folder))
  {
    var e := Export(db, c);
    var fs, rs := SortedIds(FolderIds(db, c)), SortedIds(RequestIds(db, c));
    hide SortedIds, Inside;
    forall p: Option<nat> ensures Inside(e.folders, p) <==> p.None? || p.value in FolderIds(db, c) {
      InsideIff(db, c, p);
    }
    if Local(db, c) {
    } else if f :| f in FolderIds(db, c) && db.folders[f].parent.Some?
                   && db.folders[f].parent.value !in FolderIds(db, c) {
      var i :| 0 <= i < |fs| && fs[i] == f;
      assert !Inside(e.folders, e.folders[i].parent);
    } else {
      var r :| r in RequestIds(db, c) && db.requests[r].folder.Some?
               && db.requests[r].folder.value !in FolderIds(db, c);
      var i :| 0 <= i < |rs| && rs[i] == r;
      assert !Inside(e.folders, e.requests[i].folder);
    }
  }

  lemma NoneUnderItselfIff(db: Db, c: nat)
    requires c in db.collections
    ensures var fs := Export(db, c).folders;
            NoneUnderItself(db, c) <==> forall i | 0 <= i < |fs| :: fs[i].parent != Some(fs[i].id)
  {
    var fs, ids := Export(db, c).folders, SortedIds(FolderIds(db, c));
    hide SortedIds;
    if f :| f in FolderIds(db, c) && OwnParent(db, f) {
      var i :| 0 <= i < |ids| && ids[i] == f;
      assert fs[i].parent == Some(fs[i].id);
    }
    if i :| 0 <= i < |fs| && fs[i].parent == Some(fs[i].id) {
      assert ids[i] in FolderIds(db, c) && OwnParent(db, ids[i]);
    }
  }

  /** The i-th folder's link names a listed folder other than itself, or nothing. */
  ghost predicate LinkKept(fs: seq<ExpFolder>, i: nat)
    requires i < |fs|
  {
    Inside(fs, fs[i].parent) && fs[i].parent != Some(fs[i].id)
  }

  ghost predicate LinksKept(e: Exported) {
    && (forall i | 0 <= i < |e.folders| :: LinkKept(e.folders, i))
    && forall i | 0 <= i < |e.requests| :: Inside(e.folders, e.requests[i].folder)
  }

  lemma LinksKeptIff(db: Db, c: nat)
    requires c in db.collections
    ensures LinksKept(Export(db, c)) <==> Local(db, c) && NoneUnderItself(db, c)
  {
    LocalIff(db, c);
    NoneUnderItselfIff(db, c);
    hide Export, Local, NoneUnderItself, Inside;
    var fs := Export(db, c).folders;
    forall i | 0 <= i < |fs|
      ensures LinkKept(fs, i) <==> Inside(fs, fs[i].parent) && fs[i].parent != Some(fs[i].id)
    {
    }
    if LinksKept(Export(db, c)) {
      forall i | 0 <= i < |fs| ensures Inside(fs, fs[i].parent) && fs[i].parent != Some(fs[i].id) {
        assert LinkKept(fs, i);
      }
    }
  }

  /** The stages of importing the export of c: the database with the empty collection,
      then with the folders, then complete. */
  ghost predicate Stages(db: Db, c: nat, d: Db, n: nat, p: Progress, done: Db) {
    && Inv(db) && c in db.collections
    && CreateCollection(db, db.collections[c]) == Done(d, n)
    && p == FoldersIn(d, n, Export(db, c).folders)
    && (done, true) == RequestsIn(p.db, n, p.ids, Export(db, c).requests)
  }

  lemma NewCollectionIsEmpty(db: Db, c: nat)
    requires Inv(db) && c in db.collections
    ensures var r := CreateCollection(db, db.collections[c]);
            && r.Done? && r.id !in db.collections
            && r.db.folders == db.folders && r.db.requests == db.requests
            && r.db.collections == db.collections[r.id := db.collections[c]]
            && (forall f | f in db.folders :: db.folders[f].collection != r.id)
            && (forall q | q in db.requests :: db.requests[q].collection != r.id)
  {
    var r := CreateCollection(db, db.collections[c]);
    forall f | f in db.folders ensures db.folders[f].collection != r.id { assert FolderOk(db, f); }
    forall q | q in db.requests ensures db.requests[q].collection != r.id { assert RequestOk(db, q); }
  }

  lemma FolderStage(db: Db, c: nat, d: Db, n: nat, p: Progress, done: Db)
    requires Stages(db, c, d, n, p, done)
    ensures Extends(d, p.db, |Export(db, c).folders|) && done.folders == p.db.folders
    ensures RowsExtend(p.db, done, |Export(db, c).requests|) && Pointing(p)
    ensures n in done.collections && done.collections[n] == db.collections[c]
  {
    var e := Export(db, c);
    NewCollectionIsEmpty(db, c);
    FolderLoopExtends(d, n, e.folders);
    FoldersInPointing(d, n, e.folders);
    ExportIsTopological(db, c);
    hide Export, FoldersIn, RequestsIn, CreateCollection, Inv, NextId;
    RequestLoopExtends(p.db, n, p.ids, e.requests);
  }

  lemma FolderLoopExtendsCollections(db: Db, c: nat, fs: seq<ExpFolder>)
    ensures FoldersIn(db, c, fs).db.collections == db.collections
  {
    FolderLoopExtends(db, c, fs);
  }

  lemma FoldersListed(db: Db, c: nat, d: Db, n: nat, p: Progress, done: Db)
    requires Stages(db, c, d, n, p, done)
    ensures SortedIds(FolderIds(done, n)) == Consecutive(NextId(d.folders.Keys), |Export(db, c).folders|)
  {
    hide Export, FoldersIn, RequestsIn, CreateCollection, Inv, NextId, Mapped, SortedIds;
    var fs, base := Export(db, c).folders, NextId(d.folders.Keys);
    NewCollectionIsEmpty(db, c);
    FolderStage(db, c, d, n, p, done);
    forall f | base <= f < base + |fs| ensures f in p.db.folders && p.db.folders[f].collection == n {
      FolderLoopRow(d, n, fs, f - base);
    }
    NewFolderIds(d, p.db, |fs|, n, base);
    assert FolderIds(done, n) == FolderIds(p.db, n);
  }

  /** The new folders, listed again: the same names under consecutive ids, each link as
      mapped. */
  lemma FoldersAgain(db: Db, c: nat, d: Db, n: nat, p: Progress, done: Db)
    requires Stages(db, c, d, n, p, done) && n in done.collections
    ensures Renumbered(Export(db, c).folders, Export(done, n).folders, NextId(d.folders.Keys))
  {
    hide FoldersIn, RequestsIn, CreateCollection, Inv, NextId, Mapped, SortedIds;
    FoldersListed(db, c, d, n, p, done);
    ExportIsTopological(db, c);
  }

  lemma FolderAgain(db: Db, c: nat, d: Db, n: nat, p: Progress, done: Db, i: nat)
    requires Stages(db, c, d, n, p, done) && n in done.collections && i < |Export(db, c).folders|
    ensures var fs, gs := Export(db, c).folders, Export(done, n).folders;
            && |gs| == |fs| && gs[i].name == fs[i].name
            && gs[i].parent == Mapped(FoldersIn(d, n, fs[..i]).ids, fs[i].parent)
  {
    hide FoldersIn, RequestsIn, CreateCollection, Inv, NextId, Mapped, SortedIds, Extends;
    FoldersListed(db, c, d, n, p, done);
    FolderStage(db, c, d, n, p, done);
    FolderLoopRow(d, n, Export(db, c).folders, i);
  }

  lemma RequestsListed(db: Db, c: nat, d: Db, n: nat, p: Progress, done: Db)
    requires Stages(db, c, d, n, p, done)
    ensures SortedIds(RequestIds(done, n)) == Consecutive(NextId(p.db.requests.Keys), |Export(db, c).requests|)
  {
    hide Export, FoldersIn, RequestsIn, CreateCollection, Inv, NextId, SortedIds, Mapped;
    var rs, base := Export(db, c).requests, NextId(p.db.requests.Keys);
    NewCollectionIsEmpty(db, c);
    FolderStage(db, c, d, n, p, done);
    ExportIsTopological(db, c);
    forall r | base <= r < base + |rs| ensures r in done.requests && done.requests[r].collection == n {
      RequestLoopRow(p.db, n, p.ids, rs, r - base);
    }
    NewRequestIds(p.db, done, |rs|, n, base);
  }

  lemma RequestsAgain(db: Db, c: nat, d: Db, n: nat, p: Progress, done: Db)
    requires Stages(db, c, d, n, p, done) && n in done.collections
    ensures |Export(db, c).requests| == |Export(done, n).requests|
  {
    hide FoldersIn, RequestsIn, CreateCollection, Inv, NextId, Mapped, SortedIds;
    RequestsListed(db, c, d, n, p, done);
  }

  lemma NewRequestRow(db: Db, c: nat, d: Db, n: nat, p: Progress, done: Db, i: nat)
    requires Stages(db, c, d, n, p, done) && i < |Export(db, c).requests|
    ensures var k := NextId(p.db.requests.Keys) + i;
            k in done.requests && done.requests[k] == RequestFrom(n, p.ids, Export(db, c).requests[i])
  {
    hide Export, FoldersIn, RequestsIn, CreateCollection, Inv, NextId, Mapped, Extends, RowsExtend, RequestFrom;
    NewCollectionIsEmpty(db, c);
    FolderStage(db, c, d, n, p, done);
    ExportIsTopological(db, c);
    FolderLoopExtendsCollections(d, n, Export(db, c).folders);
    RequestLoopRow(p.db, n, p.ids, Export(db, c).requests, i);
  }

  lemma RequestAgain(db: Db, c: nat, d: Db, n: nat, p: Progress, done: Db, i: nat)
    requires Stages(db, c, d, n, p, done) && n in done.collections && i < |Export(db, c).requests|
    ensures var rs, qs := Export(db, c).requests, Export(done, n).requests;
            |rs| == |qs| && qs[i].content == rs[i].content
            && qs[i].folder == Mapped(FoldersIn(d, n, Export(db, c).folders).ids, rs[i].folder)
  {
    hide FoldersIn, RequestsIn, CreateCollection, Inv, NextId, Mapped, SortedIds;
    RequestsListed(db, c, d, n, p, done);
    NewRequestRow(db, c, d, n, p, done, i);
  }

  /** Importing an export succeeds, touches no existing row, and gives a collection that
      exports to the same names, nesting and request placement, ids aside, exactly when
      every link of the original stayed inside its collection and none of its folders was
      its own parent. */
  lemma ImportOfExport(db: Db, c: nat)
    requires Inv(db) && c in db.collections
    ensures var e := Export(db, c);
            var r := Import(db, e);
            && r.ok && r.id !in db.collections && r.id in r.db.collections
            && (SameShape(e, Export(r.db, r.id)) <==> Local(db, c) && NoneUnderItself(db, c))
            && (forall k | k in db.collections :: k in r.db.collections && r.db.collections[k] == db.collections[k])
            && (forall k | k in db.folders :: k in r.db.folders && r.db.folders[k] == db.folders[k])
            && (forall k | k in db.requests :: k in r.db.requests && r.db.requests[k] == db.requests[k])
  {
    var e := Export(db, c);
    var r := Import(db, e);
    NewCollectionIsEmpty(db, c);
    var d, n := CreateCollection(db, e.name).db, CreateCollection(db, e.name).id;
    var p := FoldersIn(d, n, e.folders);
    FolderLoopExtends(d, n, e.folders);
    FoldersInPointing(d, n, e.folders);
    ExportIsTopological(db, c);
    RequestLoopExtends(p.db, n, p.ids, e.requests);
    assert Stages(db, c, d, n, p, r.db);
    FolderStage(db, c, d, n, p, r.db);
    ShapeIff(db, c, d, n, p, r.db);
  }

  lemma FolderLinksIff(db: Db, c: nat, d: Db, n: nat, p: Progress, done: Db, i: nat)
    requires Stages(db, c, d, n, p, done) && n in done.collections && i < |Export(db, c).folders|
    ensures var fs, gs := Export(db, c).folders, Export(done, n).folders;
            && |gs| == |fs| && gs[i].name == fs[i].name
            && (SameLink(fs[i].parent, fs, gs[i].parent, gs) <==> LinkKept(fs, i))
  {
    hide Inv, NextId, FoldersIn, RequestsIn, Mapped, SameLink, Inside, Follows, Renumbered, Export, Topological;
    FoldersAgain(db, c, d, n, p, done);
    FolderAgain(db, c, d, n, p, done, i);
    ExportIsTopological(db, c);
    var fs, gs, base := Export(db, c).folders, Export(done, n).folders, NextId(d.folders.Keys);
    if fs[i].parent == Some(fs[i].id) {
      OwnParentIsLost(d, n, fs, i);
      LostLink(fs, gs, i);
    } else {
      ParentIsMapped(d, n, fs, i);
      LinkSurvivesIff(fs, gs, base, fs[i].parent, gs[i].parent);
    }
  }

  lemma LostLink(fs: seq<ExpFolder>, gs: seq<ExpFolder>, i: nat)
    requires |fs| == |gs| && i < |fs| && fs[i].parent.Some? && gs[i].parent == None
    ensures !SameLink(fs[i].parent, fs, gs[i].parent, gs)
  {
  }

  lemma RenumberedLength(fs: seq<ExpFolder>, gs: seq<ExpFolder>, base: nat)
    requires Renumbered(fs, gs, base)
    ensures |fs| == |gs| && DistinctIds(fs)
  {
  }

  lemma RequestLinksIff(db: Db, c: nat, d: Db, n: nat, p: Progress, done: Db, i: nat)
    requires Stages(db, c, d, n, p, done) && n in done.collections && i < |Export(db, c).requests|
    ensures var e, g := Export(db, c), Export(done, n);
            && |g.requests| == |e.requests| && |g.folders| == |e.folders|
            && g.requests[i].content == e.requests[i].content
            && (SameLink(e.requests[i].folder, e.folders, g.requests[i].folder, g.folders)
                <==> Inside(e.folders, e.requests[i].folder))
  {
    hide Inv, NextId, FoldersIn, RequestsIn, Mapped, SameLink, Inside, Follows, Renumbered, Export;
    var e, g, base := Export(db, c), Export(done, n), NextId(d.folders.Keys);
    FoldersAgain(db, c, d, n, p, done);
    RequestAgain(db, c, d, n, p, done, i);
    RenumberedLength(e.folders, g.folders, base);
    MappedIs(d, n, e.folders, e.requests[i].folder);
    LinkSurvivesIff(e.folders, g.folders, base, e.requests[i].folder, g.requests[i].folder);
  }

  lemma ShapeIff(db: Db, c: nat, d: Db, n: nat, p: Progress, done: Db)
    requires Stages(db, c, d, n, p, done) && n in done.collections && done.collections[n] == db.collections[c]
    ensures SameShape(Export(db, c), Export(done, n)) <==> Local(db, c) && NoneUnderItself(db, c)
  {
    hide Local, NoneUnderItself, LinkKept, Inv, NextId, FoldersIn, RequestsIn, Mapped, SameLink, Inside;
    hide FolderRows, RequestRows, FolderIds, RequestIds, Renumbered;
    var e, g := Export(db, c), Export(done, n);
    FoldersAgain(db, c, d, n, p, done);
    RequestsAgain(db, c, d, n, p, done);
    RenumberedLength(e.folders, g.folders, NextId(d.folders.Keys));
    LinksKeptIff(db, c);
    forall i | 0 <= i < |e.folders|
      ensures g.folders[i].name == e.folders[i].name
      ensures SameLink(e.folders[i].parent, e.folders, g.folders[i].parent, g.folders)
          <==> LinkKept(e.folders, i)
    {
      FolderLinksIff(db, c, d, n, p, done, i);
    }
    forall i | 0 <= i < |e.requests|
      ensures g.requests[i].content == e.requests[i].content
      ensures SameLink(e.requests[i].folder, e.folders, g.requests[i].folder, g.folders)
          <==> Inside(e.folders, e.requests[i].folder)
    {
      RequestLinksIff(db, c, d, n, p, done, i);
    }
  }

  // ---- The copy, row by row ----

  /** q names the j-th of tos when p names the j-th of froms, other than the own-th, and
      nothing otherwise. */
  ghost predicate LinkCopied(p: Option<nat>, froms: seq<nat>, q: Option<nat>, tos: seq<nat>, own: int)
    requires |froms| == |tos|
  {
    && (forall j | 0 <= j < |froms| && j != own && p == Some(froms[j]) :: q == Some(tos[j]))
    && ((forall j | 0 <= j < |froms| && j != own :: p != Some(froms[j])) ==> q == None)
  }

  ghost predicate FoldersCopied(db: Db, c: nat, d: Db, n: nat) {
    var fs, gs := SortedIds(FolderIds(db, c)), SortedIds(FolderIds(d, n));
    && |fs| == |gs|
    && forall i | 0 <= i < |fs| ::
         && d.folders[gs[i]].name == db.folders[fs[i]].name
         && LinkCopied(db.folders[fs[i]].parent, fs, d.folders[gs[i]].parent, gs, i)
  }

  ghost predicate RequestsCopied(db: Db, c: nat, d: Db, n: nat) {
    var fs, gs := SortedIds(FolderIds(db, c)), SortedIds(FolderIds(d, n));
    var rs, qs := SortedIds(RequestIds(db, c)), SortedIds(RequestIds(d, n));
    && |fs| == |gs| && |rs| == |qs|
    && forall i | 0 <= i < |rs| ::
         && d.requests[qs[i]].content == db.requests[rs[i]].content && !d.requests[qs[i]].useProxy
         && LinkCopied(db.requests[rs[i]].folder, fs, d.requests[qs[i]].folder, gs, -1)
  }

  /** Collection n of d is a copy of c of db: the same name, and under ids in the same order
      rows with the same names and contents, linked as far as links were inside and not to
      the row itself. */
  ghost predicate Copied(db: Db, c: nat, d: Db, n: nat) {
    && c in db.collections && n in d.collections && d.collections[n] == db.collections[c]
    && FoldersCopied(db, c, d, n) && RequestsCopied(db, c, d, n)
  }

  lemma ExportedRows(db: Db, c: nat)
    requires c in db.collections
    ensures var e, fs, rs := Export(db, c), SortedIds(FolderIds(db, c)), SortedIds(RequestIds(db, c));
            && |e.folders| == |fs| && |e.requests| == |rs|
            && (forall i | 0 <= i < |fs| ::
                  e.folders[i] == ExpFolder(fs[i], db.folders[fs[i]].parent, db.folders[fs[i]].name))
            && forall i | 0 <= i < |rs| ::
                 e.requests[i] == ExpRequest(rs[i], db.requests[rs[i]].folder, db.requests[rs[i]].content)
  {
    hide SortedIds;
  }

  lemma FollowsCopies(fs: seq<ExpFolder>, froms: seq<nat>, tos: seq<nat>, base: nat, p: Option<nat>, q: Option<nat>)
    requires |fs| == |froms| && tos == Consecutive(base, |fs|)
    requires forall j | 0 <= j < |fs| :: fs[j].id == froms[j]
    requires Follows(fs, base, p, q)
    ensures LinkCopied(p, froms, q, tos, -1)
    ensures forall i | 0 <= i < |fs| && p != Some(froms[i]) :: LinkCopied(p, froms, q, tos, i)
  {
    hide Consecutive;
  }

  lemma FolderCopied(db: Db, c: nat, d: Db, n: nat, p: Progress, done: Db, i: nat)
    requires Stages(db, c, d, n, p, done) && n in done.collections && i < |Export(db, c).folders|
    ensures var fs, gs := SortedIds(FolderIds(db, c)), SortedIds(FolderIds(done, n));
            && |fs| == |gs| && i < |fs|
            && done.folders[gs[i]].name == db.folders[fs[i]].name
            && LinkCopied(db.folders[fs[i]].parent, fs, done.folders[gs[i]].parent, gs, i)
  {
    hide Inv, NextId, FoldersIn, RequestsIn, Mapped, Follows, Export, Topological, SortedIds, LinkCopied;
    FoldersListed(db, c, d, n, p, done);
    FolderAgain(db, c, d, n, p, done, i);
    ExportIsTopological(db, c);
    ExportedRows(db, c);
    ExportedRows(done, n);
    var fs, froms, tos := Export(db, c).folders, SortedIds(FolderIds(db, c)), SortedIds(FolderIds(done, n));
    if fs[i].parent == Some(fs[i].id) {
      OwnParentIsLost(d, n, fs, i);
      OwnLinkLost(froms, tos, i);
    } else {
      ParentIsMapped(d, n, fs, i);
      FollowsCopies(fs, froms, tos, NextId(d.folders.Keys), fs[i].parent, done.folders[tos[i]].parent);
    }
  }

  lemma OwnLinkLost(froms: seq<nat>, tos: seq<nat>, i: nat)
    requires |froms| == |tos| && i < |froms| && forall j, k | 0 <= j < k < |froms| :: froms[j] < froms[k]
    ensures LinkCopied(Some(froms[i]), froms, None, tos, i)
  {
  }

  lemma RequestCopied(db: Db, c: nat, d: Db, n: nat, p: Progress, done: Db, i: nat)
    requires Stages(db, c, d, n, p, done) && n in done.collections && i < |Export(db, c).requests|
    ensures var fs, gs := SortedIds(FolderIds(db, c)), SortedIds(FolderIds(done, n));
            var rs, qs := SortedIds(RequestIds(db, c)), SortedIds(RequestIds(done, n));
            && |fs| == |gs| && |rs| == |qs| && i < |rs|
            && done.requests[qs[i]].content == db.requests[rs[i]].content && !done.requests[qs[i]].useProxy
            && LinkCopied(db.requests[rs[i]].folder, fs, done.requests[qs[i]].folder, gs, -1)
  {
    hide Inv, NextId, FoldersIn, RequestsIn, Mapped, Follows, Export, SortedIds, LinkCopied, Renumbered;
    FoldersListed(db, c, d, n, p, done);
    FoldersAgain(db, c, d, n, p, done);
    RequestsListed(db, c, d, n, p, done);
    NewRequestRow(db, c, d, n, p, done, i);
    ExportedRows(db, c);
    var e := Export(db, c);
    RenumberedLength(e.folders, Export(done, n).folders, NextId(d.folders.Keys));
    MappedIs(d, n, e.folders, e.requests[i].folder);
    FollowsCopies(e.folders, SortedIds(FolderIds(db, c)), SortedIds(FolderIds(done, n)), NextId(d.folders.Keys),
                  e.requests[i].folder, RequestFrom(n, p.ids, e.requests[i]).folder);
  }

  /** Importing an export copies the rows themselves, whatever the links were. */
  lemma ImportCopiesRows(db: Db, c: nat)
    requires Inv(db) && c in db.collections
    ensures var r := Import(db, Export(db, c)); Copied(db, c, r.db, r.id)
  {
    var e := Export(db, c);
    var r := Import(db, e);
    NewCollectionIsEmpty(db, c);
    var d, n := CreateCollection(db, e.name).db, CreateCollection(db, e.name).id;
    var p := FoldersIn(d, n, e.folders);
    FoldersInPointing(d, n, e.folders);
    FolderLoopExtendsCollections(d, n, e.folders);
    ExportIsTopological(db, c);
    RequestLoopExtends(p.db, n, p.ids, e.requests);
    assert Stages(db, c, d, n, p, r.db);
    StagesCopy(db, c, d, n, p, r.db);
  }

  lemma StagesCopy(db: Db, c: nat, d: Db, n: nat, p: Progress, done: Db)
    requires Stages(db, c, d, n, p, done)
    ensures Copied(db, c, done, n)
  {
    hide Inv, NextId, FoldersIn, RequestsIn, Export, SortedIds, LinkCopied, Stages, Extends, RowsExtend;
    hide FoldersCopied, RequestsCopied;
    FolderStage(db, c, d, n, p, done);
    StagesStart(db, c, d, n, p, done);
    StagesCopyFolders(db, c, d, n, p, done);
    StagesCopyRequests(db, c, d, n, p, done);
  }

  lemma StagesCopyFolders(db: Db, c: nat, d: Db, n: nat, p: Progress, done: Db)
    requires Stages(db, c, d, n, p, done) && n in done.collections
    ensures FoldersCopied(db, c, done, n)
  {
    hide Inv, NextId, FoldersIn, RequestsIn, Export, SortedIds, LinkCopied, Stages;
    StagesStart(db, c, d, n, p, done);
    ExportedRows(db, c);
    FoldersListed(db, c, d, n, p, done);
    var fs, gs := SortedIds(FolderIds(db, c)), SortedIds(FolderIds(done, n));
    forall i | 0 <= i < |fs|
      ensures done.folders[gs[i]].name == db.folders[fs[i]].name
      ensures LinkCopied(db.folders[fs[i]].parent, fs, done.folders[gs[i]].parent, gs, i)
    {
      FolderCopied(db, c, d, n, p, done, i);
    }
  }

  lemma StagesCopyRequests(db: Db, c: nat, d: Db, n: nat, p: Progress, done: Db)
    requires Stages(db, c, d, n, p, done) && n in done.collections
    ensures RequestsCopied(db, c, done, n)
  {
    hide Inv, NextId, FoldersIn, RequestsIn, Export, SortedIds, LinkCopied, Stages;
    StagesStart(db, c, d, n, p, done);
    ExportedRows(db, c);
    FoldersListed(db, c, d, n, p, done);
    RequestsListed(db, c, d, n, p, done);
    var fs, gs := SortedIds(FolderIds(db, c)), SortedIds(FolderIds(done, n));
    var rs, qs := SortedIds(RequestIds(db, c)), SortedIds(RequestIds(done, n));
    forall i | 0 <= i < |rs|
      ensures done.requests[qs[i]].content == db.requests[rs[i]].content && !done.requests[qs[i]].useProxy
      ensures LinkCopied(db.requests[rs[i]].folder, fs, done.requests[qs[i]].folder, gs, -1)
    {
      RequestCopied(db, c, d, n, p, done, i);
    }
  }

  lemma StagesStart(db: Db, c: nat, d: Db, n: nat, p: Progress, done: Db)
    requires Stages(db, c, d, n, p, done)
    ensures Inv(db) && c in db.collections
  {
  }

  // ---- Imports keep the forest ----

  lemma {:induction false} FoldersInKeepInv(db: Db, c: nat, fs: seq<ExpFolder>)
    requires Inv(db) && c in db.collections
    ensures Inv(FoldersIn(db, c, fs).db)
  {
    if fs != [] {
      var p, f := FoldersIn(db, c, fs[..|fs| - 1]), fs[|fs| - 1];
      FoldersInKeepInv(db, c, fs[..|fs| - 1]);
      FoldersInPointing(db, c, fs[..|fs| - 1]);
      hide Inv, NextId;
      InsertFolderKeepsInv(p.db, c, Mapped(p.ids, f.parent), f.name);
    }
  }

  lemma {:induction false} RequestsInKeepInv(db: Db, c: nat, ids: map<nat, nat>, rs: seq<ExpRequest>)
    requires Inv(db)
    ensures Inv(RequestsIn(db, c, ids, rs).0)
  {
    if rs != [] {
      var d, x := RequestsIn(db, c, ids, rs[..|rs| - 1]).0, RequestFrom(c, ids, rs[|rs| - 1]);
      RequestsInKeepInv(db, c, ids, rs[..|rs| - 1]);
      hide Inv, NextId, Stored;
      if RequestAllowed(d, x) { RequestChangeKeepsInv(d, NextId(d.requests.Keys), x); }
    }
  }

  /** Importing any document at all, even one that stops half-way, keeps the invariant. */
  lemma ImportKeepsInv(db: Db, e: Exported)
    requires Inv(db)
    ensures Inv(Import(db, e).db)
  {
    SmallChangesKeepInv(db, 0, 0, e.name);
    hide Inv, NextId, RequestsIn, FoldersIn;
    match CreateCollection(db, e.name)
    case Refused =>
    case Done(d, c) =>
      FoldersInKeepInv(d, c, e.folders);
      var p := FoldersIn(d, c, e.folders);
      RequestsInKeepInv(p.db, c, p.ids, e.requests);
  }

  lemma {:induction false} FoldersInKeepForest(db: Db, c: nat, fs: seq<ExpFolder>)
    requires forall f :: !OwnParent(db, f)
    ensures forall f :: !OwnParent(FoldersIn(db, c, fs).db, f)
  {
    if fs != [] {
      var p, x := FoldersIn(db, c, fs[..|fs| - 1]), fs[|fs| - 1];
      FoldersInKeepForest(db, c, fs[..|fs| - 1]);
      FoldersInPointing(db, c, fs[..|fs| - 1]);
      FoldersInStep(db, c, fs);
      AddFolderKeys(p, c, x);
      forall f ensures !OwnParent(FoldersIn(db, c, fs).db, f) {
        assert !OwnParent(p.db, f);
        if f == NextId(p.db.folders.Keys) { assert f !in p.db.folders; }
      }
    }
  }

  lemma {:induction false} RequestsInKeepFolders(db: Db, c: nat, ids: map<nat, nat>, rs: seq<ExpRequest>)
    ensures RequestsIn(db, c, ids, rs).0.folders == db.folders
  {
    hide NextId, Stored, RequestAllowed;
    if rs != [] { RequestsInKeepFolders(db, c, ids, rs[..|rs| - 1]); }
  }

  /** No import makes a folder its own parent: on a forest it leaves a forest. */
  lemma ImportKeepsForest(db: Db, e: Exported)
    requires Inv(db) && IsForest(db)
    ensures IsForest(Import(db, e).db)
  {
    ForestIff(db);
    ImportKeepsInv(db, e);
    ForestIff(Import(db, e).db);
    hide IsForest, Inv, NextId, FoldersIn, RequestsIn;
    match CreateCollection(db, e.name)
    case Refused =>
      assert Import(db, e).db == db;
    case Done(d, c) =>
      forall f ensures !OwnParent(d, f) { assert !OwnParent(db, f); }
      var p := FoldersIn(d, c, e.folders);
      FoldersInKeepForest(d, c, e.folders);
      RequestsInKeepFolders(p.db, c, p.ids, e.requests);
      forall f ensures !OwnParent(Import(db, e).db, f) { assert !OwnParent(p.db, f); }
  }

  /** The folder that is its own parent, exported and imported again: every link is local,
      yet the copy is not the same, for its folder has no parent. */
  lemma {:induction false} OwnParentIsNotCopied()
    ensures var db := AfterOps(FirstFolderUnderItself());
            && 1 in db.collections && Local(db, 1)
            && var r := Import(db, Export(db, 1));
               r.id in r.db.collections && !SameShape(Export(db, 1), Export(r.db, r.id))
  {
    hide AfterOps, Inv, Export, Import, SameShape;
    var db := AfterOps(FirstFolderUnderItself());
    FolderUnderItself();
    ReachableKeepsInv(FirstFolderUnderItself());
    assert 1 in FolderIds(db, 1) && OwnParent(db, 1);
    ImportOfExport(db, 1);
  }

  /** A folder of the second collection under one of the first. */
  function StrayFolder(): seq<Op> {
    [OpCreateCollection("a"), OpCreateCollection("b"), OpCreateFolder(1, None, "x"), OpCreateFolder(2, Some(1), "y")]
  }

  lemma {:induction false} AfterStrayFolder()
    ensures AfterOps(StrayFolder())
         == Db(map[1 := "a", 2 := "b"], map[1 := Folder(1, None, "x"), 2 := Folder(2, Some(1), "y")], map[])
  {
    var ops := StrayFolder();
    var o0, o1, o2, o3 := ops[0], ops[1], ops[2], ops[3];
    assert AfterOps([]) == EMPTY;
    assert [] + [o0] == [o0] && [o0] + [o1] == [o0, o1];
    assert [o0, o1] + [o2] == [o0, o1, o2] && [o0, o1, o2] + [o3] == ops;
    hide AfterOps;
    AfterOpsSnoc([], o0);
    AfterOpsSnoc([o0], o1);
    AfterOpsSnoc([o0, o1], o2);
    AfterOpsSnoc([o0, o1, o2], o3);
    assert AfterOps([o0]) == Db(map[1 := "a"], map[], map[]);
    assert AfterOps([o0, o1]) == Db(map[1 := "a", 2 := "b"], map[], map[]);
    assert AfterOps([o0, o1, o2]) == Db(map[1 := "a", 2 := "b"], map[1 := Folder(1, None, "x")], map[]);
  }

  /** A link that leaves its collection is lost in the copy. */
  lemma {:induction false} StrayLinkIsNotCopied()
    ensures var db := AfterOps(StrayFolder());
            && 2 in db.collections && NoneUnderItself(db, 2)
            && var r := Import(db, Export(db, 2));
               r.id in r.db.collections && !SameShape(Export(db, 2), Export(r.db, r.id))
  {
    hide AfterOps, Inv, Export, Import, SameShape;
    var db := AfterOps(StrayFolder());
    AfterStrayFolder();
    ReachableKeepsInv(StrayFolder());
    assert 2 in FolderIds(db, 2) && 1 !in FolderIds(db, 2);
    ImportOfExport(db, 2);
  }

  /** The same for the store itself: what it exports it can take back. */
  method Copy(store: Database, c: nat) returns (id: nat)
    requires Inv(store.State()) && c in store.collections
    modifies store
    ensures Inv(store.State()) && id in store.collections && id !in old(store.collections)
    ensures SameShape(Export(old(store.State()), c), Export(store.State(), id))
        <==> Local(old(store.State()), c) && NoneUnderItself(old(store.State()), c)
    ensures Copied(old(store.State()), c, store.State(), id)
    ensures forall k | k in old(store.folders) :: k in store.folders && store.folders[k] == old(store.folders[k])
    ensures forall k | k in old(store.requests) :: k in store.requests && store.requests[k] == old(store.requests[k])
  {
    ghost var db := store.State();
    hide Inv, Export, Import, Local, NoneUnderItself, SameShape, Copied;
    ImportOfExport(db, c);
    ImportCopiesRows(db, c);
    ImportKeepsInv(db, Export(db, c));
    var e := ExportCollection(store, c);
    var ok;
    id, ok := ImportCollection(store, e);
  }
}
