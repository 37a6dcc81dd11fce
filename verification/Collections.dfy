/** Collections, folders and requests as the database keeps them
    (internal/repository/collections.go, internal/repository/requests.go,
    internal/db/migrations.go). Tables are maps keyed by row id; a char is a character. */
module Collections {
  import opened Wrappers

  // ---- Row ids ----

  lemma {:induction false} HasMax(s: set<nat>)
    requires s != {}
    ensures exists m | m in s :: forall x | x in s :: x <= m
    decreases |s|
  {
    var x :| x in s;
    var rest := s - {x};
    if rest == {} {
      assert s == {x};
    } else {
      HasMax(rest);
      var m :| m in rest && forall y | y in rest :: y <= m;
      var top := if x > m then x else m;
      assert top in s && forall y | y in s :: y == x || y in rest;
    }
  }

  function Max(s: set<nat>): (m: nat)
    requires s != {}
    ensures m in s && forall x | x in s :: x <= m
  {
    HasMax(s);
    var m :| m in s && forall x | x in s :: x <= m;
    m
  }

  /** The id SQLite gives a new row of a table without AUTOINCREMENT. */
  function NextId(s: set<nat>): (n: nat)
    ensures n !in s && forall x | x in s :: x < n
    ensures if s == {} then n == 1 else n - 1 in s
  {
    if s == {} then 1 else Max(s) + 1
  }

  /** ORDER BY id */
  function SortedIds(s: set<nat>): (ids: seq<nat>)
    ensures forall x :: x in ids <==> x in s
    ensures forall i | 0 <= i < |ids| :: ids[i] in s
    ensures forall i, j | 0 <= i < j < |ids| :: ids[i] < ids[j]
    decreases |s|
  {
    if s == {} then []
    else
      var rest := SortedIds(s - {Max(s)});
      LargestLast(s, rest, Max(s));
      rest + [Max(s)]
  }

  lemma LargestLast(s: set<nat>, rest: seq<nat>, m: nat)
    requires m in s && forall x | x in s :: x <= m
    requires forall x :: x in rest <==> x in s - {m}
    requires forall i, j | 0 <= i < j < |rest| :: rest[i] < rest[j]
    ensures forall x :: x in rest + [m] <==> x in s
    ensures forall i | 0 <= i < |rest + [m]| :: (rest + [m])[i] in s
    ensures forall i, j | 0 <= i < j < |rest + [m]| :: (rest + [m])[i] < (rest + [m])[j]
  {
    forall i | 0 <= i < |rest| ensures rest[i] in s && rest[i] < m { assert rest[i] in rest; }
  }

  lemma SortedIdsSnoc(s: set<nat>, n: nat)
    requires forall x | x in s :: x < n
    ensures SortedIds(s + {n}) == SortedIds(s) + [n]
  {
    assert s + {n} - {n} == s;
  }

  // ---- Tables ----

  datatype Folder = Folder(collection: nat, parent: Option<nat>, name: string)

  /** Headers and query are stored as JSON; they stand here for the values it denotes. */
  datatype Content = Content(
    name: string, protocol: string, verb: string, url: string,
    headers: Option<map<string, string>>, query: seq<(string, string)>,
    bodyType: string, body: string, variables: string, script: string, testScript: string)

  datatype Request = Request(collection: nat, folder: Option<nat>, content: Content, useProxy: bool)

  datatype Db = Db(collections: map<nat, string>, folders: map<nat, Folder>, requests: map<nat, Request>)

  function FolderIds(db: Db, c: nat): set<nat> {
    set f | f in db.folders && db.folders[f].collection == c
  }

  function RequestIds(db: Db, c: nat): set<nat> {
    set r | r in db.requests && db.requests[r].collection == c
  }

  /** length(method) BETWEEN 1 AND 32, where SQLite counts the characters before the first
      NUL. */
  predicate ValidVerb(v: string) {
    v != "" && v[0] as int != 0 && (|v| <= 32 || exists i | 1 <= i <= 32 :: v[i] as int == 0)
  }

  function OrDefault(s: string, d: string): string { if s == "" then d else s }

  function Stored(c: Content): Content {
    c.(protocol := OrDefault(c.protocol, "http"), bodyType := OrDefault(c.bodyType, "none"))
  }

  /** r is the row x is kept as: x itself, but for the two columns with a default. */
  ghost predicate SavedAs(r: Request, x: Request) {
    && r.(content := x.content) == x
    && r.content.(protocol := x.content.protocol, bodyType := x.content.bodyType) == x.content
    && r.content.protocol == (if x.content.protocol == "" then "http" else x.content.protocol)
    && r.content.bodyType == (if x.content.bodyType == "" then "none" else x.content.bodyType)
  }

  /** Up to its first NUL a method is 1 to 32 characters long. */
  lemma ValidVerbIff(v: string, rest: string)
    requires '\0' !in v
    ensures ValidVerb(v) <==> 1 <= |v| <= 32
    ensures ValidVerb(v + "\0" + rest) <==> 1 <= |v| <= 32
  {
    assert forall i | 0 <= i < |v| :: v[i] in v && v[i] as int != 0;
    var w := v + "\0" + rest;
    assert w[|v|] as int == 0;
    assert forall i | 0 <= i < |v| :: w[i] == v[i];
  }

  // ---- What every reachable database keeps ----

  ghost predicate FolderOk(db: Db, f: nat)
    requires f in db.folders
  {
    var x := db.folders[f];
    && x.collection in db.collections
    && (x.parent.Some? ==> x.parent.value in db.folders && x.parent.value <= f)
  }

  ghost predicate RequestOk(db: Db, r: nat)
    requires r in db.requests
  {
    var x := db.requests[r];
    && x.collection in db.collections && ValidVerb(x.content.verb)
    && (x.folder.Some? ==> x.folder.value in db.folders)
    && Stored(x.content) == x.content
  }

  /** References resolve, and no folder's parent has a larger id than the folder. */
  ghost predicate Inv(db: Db) {
    && (forall f | f in db.folders :: FolderOk(db, f))
    && (forall r | r in db.requests :: RequestOk(db, r))
    && (forall c | c in db.collections :: db.collections[c] != "")
  }

  // ---- Operations ----

  /** The outcome of an INSERT or UPDATE: the new state and row, or a constraint error. */
  datatype Result = Done(db: Db, id: nat) | Refused

  function CreateCollection(db: Db, name: string): Result {
    if name == "" then Refused
    else
      var id := NextId(db.collections.Keys);
      Done(db.(collections := db.collections[id := name]), id)
  }

  function RenameCollection(db: Db, c: nat, name: string): Db {
    if c in db.collections && name != "" then db.(collections := db.collections[c := name]) else db
  }

  /** The parent key is checked once the row is there, so it may name the new row itself. */
  predicate ParentAccepted(folders: set<nat>, parent: Option<nat>) {
    parent.Some? ==> parent.value in folders || parent.value == NextId(folders)
  }

  function CreateFolder(db: Db, c: nat, parent: Option<nat>, name: string): Result {
    var id := NextId(db.folders.Keys);
    if c !in db.collections || !ParentAccepted(db.folders.Keys, parent) then Refused
    else
      Done(db.(folders := db.folders[id := Folder(c, parent, name)]), id)
  }

  function RenameFolder(db: Db, f: nat, name: string): Db {
    if f in db.folders then db.(folders := db.folders[f := db.folders[f].(name := name)]) else db
  }

  predicate RequestAllowed(db: Db, x: Request) {
    && x.collection in db.collections && ValidVerb(x.content.verb)
    && (x.folder.Some? ==> x.folder.value in db.folders)
  }

  function CreateRequest(db: Db, x: Request): Result {
    if !RequestAllowed(db, x) then Refused
    else
      var id := NextId(db.requests.Keys);
      Done(db.(requests := db.requests[id := x.(content := Stored(x.content))]), id)
  }

  function UpdateRequest(db: Db, r: nat, x: Request): Result {
    if r !in db.requests then Done(db, r)
    else if !RequestAllowed(db, x) then Refused
    else Done(db.(requests := db.requests[r := x.(content := Stored(x.content))]), r)
  }

  function DeleteRequest(db: Db, r: nat): Db { db.(requests := db.requests - {r}) }

  /** f is one of the roots or lies below one. */
  predicate Under(folders: map<nat, Folder>, f: nat, roots: set<nat>)
    decreases f
  {
    f in folders
    && (f in roots
        || (folders[f].parent.Some? && folders[f].parent.value < f && Under(folders, folders[f].parent.value, roots)))
  }

  /** ON DELETE CASCADE for subfolders, ON DELETE SET NULL for the requests in them. */
  function DropFolders(db: Db, roots: set<nat>): Db {
    var kept := map f | f in db.folders && !Under(db.folders, f, roots) :: db.folders[f];
    db.(folders := kept,
        requests := map r | r in db.requests ::
          var x := db.requests[r];
          if x.folder.Some? && x.folder.value !in kept then x.(folder := None) else x)
  }

  function DeleteFolder(db: Db, f: nat): Db { DropFolders(db, {f}) }

  function DeleteCollection(db: Db, c: nat): Db {
    var d := DropFolders(db, FolderIds(db, c));
    d.(collections := d.collections - {c},
       requests := map r | r in d.requests && d.requests[r].collection != c :: d.requests[r])
  }

  // ---- The invariant is kept ----

  lemma InsertFolderKeepsInv(db: Db, c: nat, parent: Option<nat>, name: string)
    requires Inv(db)
    ensures var r := CreateFolder(db, c, parent, name);
            r.Done? ==> Inv(r.db) && r.id in r.db.folders && r.id !in db.folders
  {
    var r := CreateFolder(db, c, parent, name);
    if r.Done? {
      forall f | f in r.db.folders ensures FolderOk(r.db, f) {
        if f != r.id { assert FolderOk(db, f); }
      }
      forall q | q in r.db.requests ensures RequestOk(r.db, q) { assert RequestOk(db, q); }
    }
  }

  lemma DropFoldersKeepsInv(db: Db, roots: set<nat>)
    requires Inv(db)
    ensures Inv(DropFolders(db, roots))
    ensures forall f | f in roots :: f !in DropFolders(db, roots).folders
  {
    var d := DropFolders(db, roots);
    forall f | f in d.folders ensures FolderOk(d, f) { assert FolderOk(db, f); }
    forall r | r in d.requests ensures RequestOk(d, r) { assert RequestOk(db, r); }
  }

  /** The cascade, said row by row: a folder stays exactly when it is not deleted itself and
      its parent, if it has one other than itself, stays; what stays is unchanged; every
      request stays, detached exactly when its folder is gone. */
  ghost predicate Cascaded(db: Db, d: Db, roots: set<nat>) {
    && d.collections == db.collections
    && (forall f | f in db.folders ::
          var p := db.folders[f].parent;
          f in d.folders <==> f !in roots && (p.Some? && p.value != f ==> p.value in d.folders))
    && (forall f | f in d.folders :: f in db.folders && d.folders[f] == db.folders[f])
    && d.requests.Keys == db.requests.Keys
    && (forall r | r in db.requests ::
          var x := db.requests[r];
          d.requests[r] == if x.folder.Some? && x.folder.value !in d.folders then x.(folder := None) else x)
  }

  lemma {:induction false} DropFoldersIsCascade(db: Db, roots: set<nat>)
    requires Inv(db)
    ensures Cascaded(db, DropFolders(db, roots), roots)
  {
    forall f | f in db.folders ensures FolderOk(db, f) {}
  }

  lemma {:induction false} SameFoldersStay(db: Db, d: Db, e: Db, roots: set<nat>, f: nat)
    requires Inv(db) && Cascaded(db, d, roots) && Cascaded(db, e, roots)
    ensures f in d.folders <==> f in e.folders
  {
    if f in db.folders {
      assert FolderOk(db, f);
      var p := db.folders[f].parent;
      if p.Some? && p.value != f { SameFoldersStay(db, d, e, roots, p.value); }
    }
  }

  lemma {:induction false} SameFoldersLeft(db: Db, d: Db, e: Db, roots: set<nat>)
    requires Inv(db) && Cascaded(db, d, roots) && Cascaded(db, e, roots)
    ensures d.folders == e.folders
  {
    hide Inv;
    forall f ensures f in d.folders <==> f in e.folders { SameFoldersStay(db, d, e, roots, f); }
  }

  /** Those row-by-row clauses leave one possible outcome of a delete. */
  lemma {:induction false} CascadeIsUnique(db: Db, d: Db, e: Db, roots: set<nat>)
    requires Inv(db) && Cascaded(db, d, roots) && Cascaded(db, e, roots)
    ensures d == e
  {
    hide Inv;
    SameFoldersLeft(db, d, e, roots);
    assert d.requests == e.requests;
  }

  lemma DeleteCollectionKeepsInv(db: Db, c: nat)
    requires Inv(db)
    ensures Inv(DeleteCollection(db, c))
  {
    var roots := FolderIds(db, c);
    var d := DropFolders(db, roots);
    DropFoldersKeepsInv(db, roots);
    assert forall f | f in d.folders :: d.folders[f] == db.folders[f];
    hide DropFolders;
    var e := DeleteCollection(db, c);
    forall f | f in e.folders ensures FolderOk(e, f) {
      assert FolderOk(d, f);
      assert f !in roots;
    }
    forall r | r in e.requests ensures RequestOk(e, r) { assert RequestOk(d, r); }
  }

  lemma RequestChangeKeepsInv(db: Db, r: nat, x: Request)
    requires Inv(db) && RequestAllowed(db, x)
    ensures Inv(db.(requests := db.requests[r := x.(content := Stored(x.content))]))
  {
    var d := db.(requests := db.requests[r := x.(content := Stored(x.content))]);
    forall f | f in d.folders ensures FolderOk(d, f) { assert FolderOk(db, f); }
    forall q | q in d.requests ensures RequestOk(d, q) {
      if q != r { assert RequestOk(db, q); }
    }
  }

  /** A deleted collection takes its folders, with all below them, and its requests along;
      a request of another collection stays, detached when its folder is gone. */
  lemma DeleteCollectionIs(db: Db, c: nat)
    requires Inv(db)
    ensures var d := DeleteCollection(db, c);
            && d.collections == db.collections - {c}
            && (forall f | f in db.folders ::
                  var x := db.folders[f];
                  f in d.folders <==> x.collection != c && (x.parent.Some? && x.parent.value != f ==>
                                                              x.parent.value in d.folders))
            && (forall f | f in d.folders :: f in db.folders && d.folders[f] == db.folders[f])
            && (forall r :: r in d.requests <==> r in db.requests && db.requests[r].collection != c)
            && forall r | r in d.requests ::
                 var x := db.requests[r];
                 d.requests[r] == if x.folder.Some? && x.folder.value !in d.folders then x.(folder := None) else x
  {
    hide Inv, DropFolders;
    DropFoldersIsCascade(db, FolderIds(db, c));
  }

  /** Renaming and single deletes change nothing else. */
  lemma SmallChangesAre(db: Db, c: nat, f: nat, r: nat, name: string)
    ensures var d := RenameCollection(db, c, name);
            && d.collections.Keys == db.collections.Keys && d.folders == db.folders && d.requests == db.requests
            && forall k | k in db.collections ::
                 d.collections[k] == if k == c && name != "" then name else db.collections[k]
    ensures var d := RenameFolder(db, f, name);
            && d.folders.Keys == db.folders.Keys && d.collections == db.collections && d.requests == db.requests
            && forall k | k in db.folders ::
                 d.folders[k] == if k == f then db.folders[k].(name := name) else db.folders[k]
    ensures var d := DeleteRequest(db, r);
            && d.collections == db.collections && d.folders == db.folders
            && d.requests == map k | k in db.requests && k != r :: db.requests[k]
  {
  }

  /** An update of a row that is there is refused when a new row like it would be, and
      changes that row alone. */
  lemma UpdateRequestIs(db: Db, r: nat, x: Request)
    ensures var u := UpdateRequest(db, r, x);
            && (u.Refused? <==> r in db.requests && CreateRequest(db, x).Refused?)
            && (u.Done? && r !in db.requests ==> u.db == db)
            && (u.Done? && r in db.requests ==>
                  && u.db == db.(requests := u.db.requests) && u.db.requests.Keys == db.requests.Keys
                  && SavedAs(u.db.requests[r], x)
                  && forall k | k in db.requests && k != r :: u.db.requests[k] == db.requests[k])
  {
  }

  datatype Op =
    | OpCreateCollection(name: string)
    | OpRenameCollection(c: nat, name: string)
    | OpDeleteCollection(c: nat)
    | OpCreateFolder(c: nat, parent: Option<nat>, folderName: string)
    | OpRenameFolder(f: nat, newName: string)
    | OpDeleteFolder(f: nat)
    | OpCreateRequest(x: Request)
    | OpUpdateRequest(r: nat, x: Request)
    | OpDeleteRequest(r: nat)

  function Kept(db: Db, r: Result): Db { if r.Done? then r.db else db }

  function Apply(db: Db, op: Op): Db {
    match op
    case OpCreateCollection(name) => Kept(db, CreateCollection(db, name))
    case OpRenameCollection(c, name) => RenameCollection(db, c, name)
    case OpDeleteCollection(c) => DeleteCollection(db, c)
    case OpCreateFolder(c, p, name) => Kept(db, CreateFolder(db, c, p, name))
    case OpRenameFolder(f, name) => RenameFolder(db, f, name)
    case OpDeleteFolder(f) => DeleteFolder(db, f)
    case OpCreateRequest(x) => Kept(db, CreateRequest(db, x))
    case OpUpdateRequest(r, x) => Kept(db, UpdateRequest(db, r, x))
    case OpDeleteRequest(r) => DeleteRequest(db, r)
  }

  const EMPTY := Db(map[], map[], map[])

  function AfterOps(ops: seq<Op>): Db {
    if ops == [] then EMPTY else Apply(AfterOps(ops[..|ops| - 1]), ops[|ops| - 1])
  }

  lemma SmallChangesKeepInv(db: Db, f: nat, r: nat, name: string)
    requires Inv(db)
    ensures Inv(RenameFolder(db, f, name)) && Inv(DeleteRequest(db, r))
    ensures Inv(Kept(db, CreateCollection(db, name))) && Inv(RenameCollection(db, f, name))
  {
    forall d | d == RenameFolder(db, f, name) || d == DeleteRequest(db, r)
            || d == Kept(db, CreateCollection(db, name)) || d == RenameCollection(db, f, name)
      ensures Inv(d)
    {
      forall g | g in d.folders ensures FolderOk(d, g) { assert FolderOk(db, g); }
      forall q | q in d.requests ensures RequestOk(d, q) { assert RequestOk(db, q); }
    }
  }

  lemma ApplyKeepsInv(db: Db, op: Op)
    requires Inv(db)
    ensures Inv(Apply(db, op))
  {
    hide Inv, DropFolders, DeleteCollection, RenameFolder, RenameCollection;
    hide DeleteRequest, CreateCollection, CreateFolder, Stored;
    match op
    case OpCreateCollection(name) => SmallChangesKeepInv(db, 0, 0, name);
    case OpRenameCollection(c, name) => SmallChangesKeepInv(db, c, 0, name);
    case OpDeleteCollection(c) => DeleteCollectionKeepsInv(db, c);
    case OpCreateFolder(c, p, name) => InsertFolderKeepsInv(db, c, p, name);
    case OpRenameFolder(f, name) => SmallChangesKeepInv(db, f, 0, name);
    case OpDeleteFolder(f) => DropFoldersKeepsInv(db, {f});
    case OpCreateRequest(x) =>
      if RequestAllowed(db, x) { RequestChangeKeepsInv(db, NextId(db.requests.Keys), x); }
    case OpUpdateRequest(r, x) =>
      if RequestAllowed(db, x) { RequestChangeKeepsInv(db, r, x); }
    case OpDeleteRequest(r) => SmallChangesKeepInv(db, 0, r, "");
  }

  /** In every reachable database every reference resolves and no parent has a larger id
      than its child, although ids of deleted rows are reused. */
  lemma {:induction false} ReachableKeepsInv(ops: seq<Op>)
    ensures Inv(AfterOps(ops))
  {
    if ops != [] {
      ReachableKeepsInv(ops[..|ops| - 1]);
      ApplyKeepsInv(AfterOps(ops[..|ops| - 1]), ops[|ops| - 1]);
    }
  }

  // ---- When the folders are a forest ----

  /** Each folder of the path is the parent of the one before it. */
  ghost predicate Climbs(db: Db, path: seq<nat>) {
    && path != [] && (forall i | 0 <= i < |path| :: path[i] in db.folders)
    && forall i | 0 <= i < |path| - 1 :: db.folders[path[i]].parent == Some(path[i + 1])
  }

  /** Following parents never leads back to where it started. */
  ghost predicate IsForest(db: Db) {
    forall path | Climbs(db, path) && |path| > 1 :: path[|path| - 1] != path[0]
  }

  ghost predicate OwnParent(db: Db, f: nat) {
    f in db.folders && db.folders[f].parent == Some(f)
  }

  lemma {:induction false} ClimbingShrinks(db: Db, path: seq<nat>)
    requires Inv(db) && Climbs(db, path) && forall f :: !OwnParent(db, f)
    ensures |path| > 1 ==> path[|path| - 1] < path[0]
  {
    if |path| > 1 {
      assert FolderOk(db, path[0]) && !OwnParent(db, path[0]);
      assert db.folders[path[0]].parent == Some(path[1]);
      assert Climbs(db, path[1..]);
      ClimbingShrinks(db, path[1..]);
    }
  }

  /** With the invariant the only possible cycle is a folder that is its own parent. */
  lemma {:induction false} ForestIff(db: Db)
    requires Inv(db)
    ensures IsForest(db) <==> forall f :: !OwnParent(db, f)
  {
    if f :| OwnParent(db, f) {
      assert Climbs(db, [f, f]);
    } else {
      forall path | Climbs(db, path) && |path| > 1 ensures path[|path| - 1] != path[0] {
        ClimbingShrinks(db, path);
      }
    }
  }

  /** The call makes a folder whose parent is the id that folder is about to get. */
  ghost predicate MakesOwnParent(db: Db, op: Op, f: nat) {
    && op.OpCreateFolder? && op.c in db.collections
    && f == NextId(db.folders.Keys) && op.parent == Some(f)
  }

  /** A folder is its own parent after a call exactly when the call made it so, or it was
      and has been left. */
  lemma {:induction false} OwnParentStep(db: Db, op: Op, f: nat)
    ensures OwnParent(Apply(db, op), f)
        <==> MakesOwnParent(db, op, f) || (OwnParent(db, f) && f in Apply(db, op).folders)
  {
    hide NextId, Under, Stored, RequestAllowed;
  }

  /** Call i made f its own parent, and f has been there ever since. */
  ghost predicate LeftOver(ops: seq<Op>, i: nat, f: nat) {
    && i < |ops| && MakesOwnParent(AfterOps(ops[..i]), ops[i], f)
    && forall k | i < k <= |ops| :: f in AfterOps(ops[..k]).folders
  }

  lemma {:induction false} LeftOverLater(ops: seq<Op>, op: Op, i: nat, f: nat)
    requires i < |ops|
    ensures LeftOver(ops + [op], i, f) <==> LeftOver(ops, i, f) && f in AfterOps(ops + [op]).folders
  {
    hide AfterOps, MakesOwnParent;
    var n, longer := |ops|, ops + [op];
    assert longer[..i] == ops[..i] && longer[i] == ops[i] && longer[..n + 1] == longer;
    forall k | i < k <= n ensures longer[..k] == ops[..k] {}
    if LeftOver(ops, i, f) && f in AfterOps(longer).folders {
      forall k | i < k <= n + 1 ensures f in AfterOps(longer[..k]).folders {
        if k <= n { assert f in AfterOps(ops[..k]).folders; }
      }
    }
    if LeftOver(longer, i, f) {
      assert f in AfterOps(longer[..n + 1]).folders;
      forall k | i < k <= n ensures f in AfterOps(ops[..k]).folders {
        assert f in AfterOps(longer[..k]).folders;
      }
    }
  }

  lemma {:induction false} AfterOpsSnoc(ops: seq<Op>, op: Op)
    ensures AfterOps(ops + [op]) == Apply(AfterOps(ops), op)
  {
    hide Apply;
    assert (ops + [op])[..|ops|] == ops;
  }

  lemma {:induction false} LeftOverNow(ops: seq<Op>, op: Op, f: nat)
    ensures LeftOver(ops + [op], |ops|, f) <==> MakesOwnParent(AfterOps(ops), op, f)
  {
    hide AfterOps, Apply, MakesOwnParent;
    var longer := ops + [op];
    AfterOpsSnoc(ops, op);
    OwnParentStep(AfterOps(ops), op, f);
    assert longer[..|ops|] == ops && longer[..|longer|] == longer;
  }

  /** A folder is its own parent exactly when some call made it so and it is still there. */
  lemma {:induction false} OwnParentIff(ops: seq<Op>, f: nat)
    ensures OwnParent(AfterOps(ops), f) <==> exists i :: LeftOver(ops, i, f)
  {
    if ops != [] {
      var n := |ops| - 1;
      var before, op := ops[..n], ops[n];
      assert ops == before + [op];
      OwnParentIff(before, f);
      OwnParentStep(AfterOps(before), op, f);
      LeftOverNow(before, op, f);
      AfterOpsSnoc(before, op);
      hide OwnParent, MakesOwnParent, AfterOps, Apply;
      if OwnParent(AfterOps(ops), f) && !MakesOwnParent(AfterOps(before), op, f) {
        var i: nat :| LeftOver(before, i, f);
        LeftOverLater(before, op, i, f);
      }
      if i: nat :| LeftOver(ops, i, f) && i < n { LeftOverLater(before, op, i, f); }
    }
  }

  /** On every run: the folders form a forest if and only if no folder that is still there
      was created with the next free id as its parent. */
  lemma {:induction false} ReachableIsForestIff(ops: seq<Op>)
    ensures IsForest(AfterOps(ops)) <==> !exists i, f :: LeftOver(ops, i, f)
  {
    ReachableKeepsInv(ops);
    ForestIff(AfterOps(ops));
    hide IsForest, OwnParent, LeftOver, AfterOps, Inv;
    forall f ensures OwnParent(AfterOps(ops), f) <==> exists i :: LeftOver(ops, i, f) { OwnParentIff(ops, f); }
    if i, f :| LeftOver(ops, i, f) {
      assert OwnParent(AfterOps(ops), f);
    } else {
      forall f ensures !OwnParent(AfterOps(ops), f) {
        assert !exists i :: LeftOver(ops, i, f);
      }
    }
  }

  /** One call on a forest leaves a forest exactly when it does not create a folder under
      the next free id. */
  lemma CallKeepsForestIff(db: Db, op: Op)
    requires Inv(db) && IsForest(db)
    ensures IsForest(Apply(db, op)) <==> !MakesOwnParent(db, op, NextId(db.folders.Keys))
  {
    ApplyKeepsInv(db, op);
    ForestIff(db);
    ForestIff(Apply(db, op));
    hide IsForest, OwnParent, Apply, Inv, NextId;
    forall f ensures OwnParent(Apply(db, op), f)
                 <==> MakesOwnParent(db, op, f) || (OwnParent(db, f) && f in Apply(db, op).folders)
    {
      OwnParentStep(db, op, f);
    }
  }

  function FirstFolderUnderItself(): seq<Op> {
    [OpCreateCollection("c"), OpCreateFolder(1, Some(1), "x")]
  }

  /** The first folder ever, created with parent 1: it gets id 1 and is its own parent. */
  lemma FolderUnderItself()
    ensures var db := AfterOps(FirstFolderUnderItself());
            db == Db(map[1 := "c"], map[1 := Folder(1, Some(1), "x")], map[]) && !IsForest(db)
  {
    var ops := FirstFolderUnderItself();
    assert ops[..1] == [OpCreateCollection("c")] && ops[..1][..0] == [];
    assert AfterOps(ops[..1]) == Db(map[1 := "c"], map[], map[]);
    var db := AfterOps(ops);
    assert Climbs(db, [1, 1]);
  }

  // ---- The store ----

  class Database {
    var collections: map<nat, string>
    var folders: map<nat, Folder>
    var requests: map<nat, Request>

    constructor ()
      ensures State() == EMPTY
    {
      collections, folders, requests := map[], map[], map[];
    }

    function State(): Db reads this { Db(collections, folders, requests) }

    method InsertCollection(name: string) returns (id: Option<nat>)
      modifies this
      ensures State() == Kept(old(State()), CreateCollection(old(State()), name))
      ensures id == if name == "" then None else Some(NextId(old(collections).Keys))
      ensures collections == if name == "" then old(collections) else old(collections)[id.value := name]
      ensures folders == old(folders) && requests == old(requests)
    {
      if name == "" { return None; }
      id := Some(NextId(collections.Keys));
      collections := collections[id.value := name];
    }

    method InsertFolder(c: nat, parent: Option<nat>, name: string) returns (id: Option<nat>)
      modifies this
      ensures State() == Kept(old(State()), CreateFolder(old(State()), c, parent, name))
      ensures id == if CreateFolder(old(State()), c, parent, name).Done? then Some(NextId(old(folders).Keys)) else None
      ensures id.Some? <==> c in old(collections) && (parent == None || parent.value in old(folders)
                                                      || parent.value == NextId(old(folders).Keys))
      ensures folders == if id.None? then old(folders) else old(folders)[id.value := Folder(c, parent, name)]
      ensures collections == old(collections) && requests == old(requests)
    {
      if c !in collections || !ParentAccepted(folders.Keys, parent) { return None; }
      id := Some(NextId(folders.Keys));
      folders := folders[id.value := Folder(c, parent, name)];
    }

    method Rename(f: nat, name: string)
      modifies this
      ensures State() == RenameFolder(old(State()), f, name)
      ensures folders.Keys == old(folders).Keys && collections == old(collections) && requests == old(requests)
      ensures forall g | g in folders ::
                folders[g] == if g == f then old(folders)[g].(name := name) else old(folders)[g]
    {
      if f in folders { folders := folders[f := folders[f].(name := name)]; }
    }

    method Delete(f: nat)
      modifies this
      ensures Inv(old(State())) ==> Cascaded(old(State()), State(), {f}) && Inv(State())
      ensures State() == DeleteFolder(old(State()), f)
    {
      if Inv(State()) {
        DropFoldersIsCascade(State(), {f});
        DropFoldersKeepsInv(State(), {f});
      }
      hide Inv, Cascaded, DropFolders;
      var d := DropFolders(State(), {f});
      folders, requests := d.folders, d.requests;
    }

    method InsertRequest(x: Request) returns (id: Option<nat>)
      modifies this
      ensures State() == Kept(old(State()), CreateRequest(old(State()), x))
      ensures id == if RequestAllowed(old(State()), x) then Some(NextId(old(requests).Keys)) else None
      ensures id.Some? <==> x.collection in old(collections) && ValidVerb(x.content.verb)
                            && (x.folder == None || x.folder.value in old(folders))
      ensures id.Some? ==> requests == old(requests)[id.value := requests[id.value]]
                           && SavedAs(requests[id.value], x)
      ensures id.None? ==> requests == old(requests)
      ensures collections == old(collections) && folders == old(folders)
    {
      if !RequestAllowed(State(), x) { return None; }
      id := Some(NextId(requests.Keys));
      requests := requests[id.value := x.(content := Stored(x.content))];
    }
  }
}
