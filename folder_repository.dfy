/** The local folder catalogue: folders are looked up by path alone; a found
    folder whose stored name differs is renamed in place, a missing path is
    created. */
module FolderRepository {
  import opened Common

  /** One row of the folder table. */
  datatype Folder = Folder(id: int, name: string, path: string, delimiter: Option<string>)

  /** The table as a value: its rows in id order and the next auto-increment id. */
  datatype Catalog = Catalog(folders: seq<Folder>, nextId: int)

  /** Ids are positive, below the counter and distinct. Paths need not be
      unique: nothing in the table enforces it, and lookup takes the first. */
  ghost predicate Consistent(c: Catalog)
  {
    && c.nextId >= 1
    && (forall i :: 0 <= i < |c.folders| ==> 1 <= c.folders[i].id < c.nextId)
    && (forall i, j :: 0 <= i < j < |c.folders| ==> c.folders[i].id != c.folders[j].id)
  }

  /** The position of the first folder with the given path, if any. */
  function FirstWithPath(folders: seq<Folder>, path: string): (r: Option<nat>)
    ensures r.Some? ==> r.value < |folders| && folders[r.value].path == path
    ensures r.Some? ==> forall j :: 0 <= j < r.value ==> folders[j].path != path
    ensures r.None? ==> forall j :: 0 <= j < |folders| ==> folders[j].path != path
  {
    if folders == [] then None
    else
      match FirstWithPath(folders[..|folders| - 1], path)
      case Some(i) => Some(i)
      case None => if folders[|folders| - 1].path == path then Some(|folders| - 1) else None
  }

  /** The folder with the given id, if any (ids are distinct in a consistent catalogue). */
  function FolderWithId(folders: seq<Folder>, id: int): (r: Option<Folder>)
    ensures r.Some? ==> r.value in folders && r.value.id == id
    ensures r.None? ==> forall j :: 0 <= j < |folders| ==> folders[j].id != id
  {
    if folders == [] then None
    else
      match FolderWithId(folders[..|folders| - 1], id)
      case Some(f) => Some(f)
      case None => if folders[|folders| - 1].id == id then Some(folders[|folders| - 1]) else None
  }

  /** The number of folders with the given path. */
  function CountPath(folders: seq<Folder>, path: string): nat
  {
    if folders == [] then 0
    else CountPath(folders[..|folders| - 1], path) + (if folders[|folders| - 1].path == path then 1 else 0)
  }

  /** getOrCreate on a catalogue value: the new catalogue and the folder returned. */
  function GetOrCreateResult(c: Catalog, path: string, name: string, delimiter: Option<string>): (Catalog, Folder)
  {
    match FirstWithPath(c.folders, path)
    case Some(i) =>
      var f := c.folders[i];
      if f.name != name then
        var f' := f.(name := name);
        (c.(folders := c.folders[i := f']), f')
      else (c, f)
    case None =>
      var f := Folder(c.nextId, name, path, delimiter);
      (Catalog(c.folders + [f], c.nextId + 1), f)
  }

  class FolderTable {
    var folders: seq<Folder>
    var nextId: int

    function Value(): Catalog
      reads this
    {
      Catalog(folders, nextId)
    }

    constructor ()
      ensures Value() == Catalog([], 1) && Consistent(Value())
    {
      folders := [];
      nextId := 1;
    }

    /** The collection filtered on path, first item. */
    method FindByPath(path: string) returns (r: Option<nat>)
      ensures r == FirstWithPath(folders, path)
    {
      var i := 0;
      while i < |folders|
        invariant 0 <= i <= |folders|
        invariant FirstWithPath(folders[..i], path) == None
      {
        assert folders[..i + 1][..i] == folders[..i];
        if folders[i].path == path {
          FirstWithPathExtend(folders[..i + 1], folders, path);
          return Some(i);
        }
        i := i + 1;
      }
      assert folders[..i] == folders;
      return None;
    }

    /** The resource model's load by entity id. */
    method FindById(id: int) returns (r: Option<Folder>)
      ensures r == FolderWithId(folders, id)
    {
      var i := 0;
      while i < |folders|
        invariant 0 <= i <= |folders|
        invariant FolderWithId(folders[..i], id) == None
      {
        assert folders[..i + 1][..i] == folders[..i];
        if folders[i].id == id {
          FolderWithIdExtend(folders[..i + 1], folders, id);
          return Some(folders[i]);
        }
        i := i + 1;
      }
      assert folders[..i] == folders;
      return None;
    }

    /** getOrCreate(path, name, delimiter). */
    method GetOrCreate(path: string, name: string, delimiter: Option<string>) returns (f: Folder)
      requires Consistent(Value())
      modifies this
      ensures Consistent(Value())
      ensures (Value(), f) == GetOrCreateResult(old(Value()), path, name, delimiter)
    {
      var found := FindByPath(path);
      if found.Some? {
        f := folders[found.value];
        if f.name != name {
          f := f.(name := name);
          folders := folders[found.value := f];
        }
        return;
      }
      f := Folder(nextId, name, path, delimiter);
      folders := folders + [f];
      nextId := nextId + 1;
    }
  }

  // ---------------------------------------------------------------------
  // Lemmas

  lemma FirstWithPathExtend(p: seq<Folder>, folders: seq<Folder>, path: string)
    requires |p| <= |folders| && folders[..|p|] == p && FirstWithPath(p, path).Some?
    ensures FirstWithPath(folders, path) == FirstWithPath(p, path)
  {
    var i := FirstWithPath(p, path).value;
    assert folders[i] == p[i];
    forall j | 0 <= j < i ensures folders[j].path != path {
      assert folders[j] == p[j];
    }
  }

  lemma FolderWithIdExtend(p: seq<Folder>, folders: seq<Folder>, id: int)
    requires |p| <= |folders| && folders[..|p|] == p && FolderWithId(p, id).Some?
    ensures FolderWithId(folders, id) == FolderWithId(p, id)
    decreases |folders|
  {
    if |folders| > |p| {
      var q := folders[..|folders| - 1];
      assert q[..|p|] == p;
      FolderWithIdExtend(p, q, id);
    } else {
      assert folders == p;
    }
  }

  /** getOrCreate keeps the catalogue consistent, and the returned folder is
      in it, has the requested path and name, and is the first folder with
      that path. */
  lemma GetOrCreateReturnsRequested(c: Catalog, path: string, name: string, delimiter: Option<string>)
    requires Consistent(c)
    ensures var (c', f) := GetOrCreateResult(c, path, name, delimiter);
            && Consistent(c')
            && f.path == path && f.name == name
            && FirstWithPath(c'.folders, path).Some?
            && c'.folders[FirstWithPath(c'.folders, path).value] == f
  {
    var (c', f) := GetOrCreateResult(c, path, name, delimiter);
    match FirstWithPath(c.folders, path)
    case Some(i) =>
      SamePathsSameFirst(c.folders, c'.folders, path);
    case None =>
      assert c'.folders[..|c'.folders| - 1] == c.folders;
  }

  /** A found folder keeps its id, path and delimiter (and its place); only
      the name may change, and nothing is created. */
  lemma RenameKeepsIdentity(c: Catalog, path: string, name: string, delimiter: Option<string>)
    requires FirstWithPath(c.folders, path).Some?
    ensures var i := FirstWithPath(c.folders, path).value;
            var (c', f) := GetOrCreateResult(c, path, name, delimiter);
            && c'.nextId == c.nextId && |c'.folders| == |c.folders|
            && f == c.folders[i].(name := name)
            && c'.folders[i] == f
            && (forall j :: 0 <= j < |c.folders| && j != i ==> c'.folders[j] == c.folders[j])
            && (c.folders[i].name == name <==> c' == c)
  {
  }

  /** An absent path creates exactly one folder with the given fields. */
  lemma CreateWhenAbsent(c: Catalog, path: string, name: string, delimiter: Option<string>)
    requires FirstWithPath(c.folders, path).None?
    ensures var (c', f) := GetOrCreateResult(c, path, name, delimiter);
            && c'.folders == c.folders + [f]
            && f == Folder(c.nextId, name, path, delimiter)
  {
  }

  /** getOrCreate never makes a second folder for a path: the number of
      folders with the path becomes one if it was zero and stays otherwise,
      and no other path's count changes. */
  lemma NoSecondFolderForPath(c: Catalog, path: string, name: string, delimiter: Option<string>, q: string)
    ensures var c' := GetOrCreateResult(c, path, name, delimiter).0;
            CountPath(c'.folders, q) ==
              if q == path && CountPath(c.folders, q) == 0 then 1 else CountPath(c.folders, q)
  {
    var c' := GetOrCreateResult(c, path, name, delimiter).0;
    match FirstWithPath(c.folders, path)
    case Some(i) =>
      SamePathsSameCount(c.folders, c'.folders, q);
      CountPositive(c.folders, path, i);
    case None =>
      assert c'.folders[..|c'.folders| - 1] == c.folders;
      CountZero(c.folders, path);
  }

  /** A second identical call changes nothing and returns the same folder. */
  lemma GetOrCreateIdempotent(c: Catalog, path: string, name: string, delimiter: Option<string>)
    requires Consistent(c)
    ensures var (c1, f1) := GetOrCreateResult(c, path, name, delimiter);
            GetOrCreateResult(c1, path, name, delimiter) == (c1, f1)
  {
    GetOrCreateReturnsRequested(c, path, name, delimiter);
  }

  /** getOrCreate keeps every earlier folder's id and path; new folders only
      come after them. */
  lemma GetOrCreateGrows(c: Catalog, path: string, name: string, delimiter: Option<string>)
    ensures var c' := GetOrCreateResult(c, path, name, delimiter).0;
            && |c.folders| <= |c'.folders|
            && (forall j :: 0 <= j < |c.folders| ==>
                  c'.folders[j].id == c.folders[j].id && c'.folders[j].path == c.folders[j].path)
  {
  }

  lemma {:induction false} SamePathsSameFirst(a: seq<Folder>, b: seq<Folder>, path: string)
    requires |a| == |b| && forall k :: 0 <= k < |a| ==> a[k].path == b[k].path
    ensures FirstWithPath(a, path) == FirstWithPath(b, path)
    decreases |a|
  {
    if a != [] {
      SamePathsSameFirst(a[..|a| - 1], b[..|b| - 1], path);
    }
  }

  lemma {:induction false} SamePathsSameCount(a: seq<Folder>, b: seq<Folder>, path: string)
    requires |a| == |b| && forall k :: 0 <= k < |a| ==> a[k].path == b[k].path
    ensures CountPath(a, path) == CountPath(b, path)
    decreases |a|
  {
    if a != [] {
      SamePathsSameCount(a[..|a| - 1], b[..|b| - 1], path);
    }
  }

  lemma {:induction false} CountPositive(a: seq<Folder>, path: string, i: nat)
    requires i < |a| && a[i].path == path
    ensures CountPath(a, path) >= 1
    decreases |a|
  {
    if i < |a| - 1 {
      CountPositive(a[..|a| - 1], path, i);
    }
  }

  lemma {:induction false} CountZero(a: seq<Folder>, path: string)
    requires forall j :: 0 <= j < |a| ==> a[j].path != path
    ensures CountPath(a, path) == 0
    decreases |a|
  {
    if a != [] {
      CountZero(a[..|a| - 1], path);
    }
  }
}
