/** Histories of the node table: what one creation changes, and the refinement
    of a plain list of directories by every table that creations can reach. */
module SacTree {
  import opened CTypes
  import opened SacPath
  import opened SacTable

  // ----- The directories as a list

  /** The existing directories below the root, in the order of their numbers. */
  ghost function Dirs(t: Table): (dirs: seq<seq<string>>)
    requires WellFormed(t)
    ensures |dirs| == Used(t)
  {
    seq(Used(t), k requires 0 <= k < Used(t) => PathOf(t, k))
  }

  lemma WalkableIsListed(t: Table, cs: seq<string>)
    requires WellFormed(t) && cs != [] && Walk(t, cs) != NOT_FOUND
    ensures 1 <= Walk(t, cs) <= Used(t) && Dirs(t)[Walk(t, cs) - 1] == cs
  {
    WalkRange(t, cs);
    ResolvesToPathOf(t, cs);
  }

  lemma ListedIsWalkable(t: Table, k: nat)
    requires WellFormed(t) && k < Used(t)
    ensures Dirs(t)[k] != [] && Walk(t, Dirs(t)[k]) == k + 1
  {
    PathOfResolves(t, k);
  }

  /** The list holds exactly the component lists that lead to a node. */
  lemma DirsAreWalkable(t: Table, cs: seq<string>)
    requires WellFormed(t)
    ensures cs in Dirs(t) <==> cs != [] && Walk(t, cs) != NOT_FOUND
    ensures cs in Dirs(t) ==> Walk(t, cs) <= Used(t) && Dirs(t)[Walk(t, cs) - 1] == cs
  {
    if cs in Dirs(t) {
      var k :| 0 <= k < Used(t) && Dirs(t)[k] == cs;
      ListedIsWalkable(t, k);
    } else if cs != [] && Walk(t, cs) != NOT_FOUND {
      WalkableIsListed(t, cs);
    }
  }

  /** No directory is listed twice. */
  lemma DirsDiffer(t: Table, j: nat, k: nat)
    requires WellFormed(t) && j < k < Used(t)
    ensures Dirs(t)[j] != Dirs(t)[k]
  {
    PathOfResolves(t, j);
    PathOfResolves(t, k);
  }

  /** First index at or after `i` of a directory in the list, or the list's length. */
  function IndexOf(dirs: seq<seq<string>>, cs: seq<string>, i: nat): (k: nat)
    requires i <= |dirs|
    ensures i <= k <= |dirs|
    ensures forall j :: i <= j < k ==> dirs[j] != cs
    ensures k < |dirs| ==> dirs[k] == cs
    decreases |dirs| - i
  {
    if i == |dirs| || dirs[i] == cs then i else IndexOf(dirs, cs, i + 1)
  }

  /** Number of a directory: 0 for the root, else its position counted from 1. */
  function NumberOf(dirs: seq<seq<string>>, cs: seq<string>): (n: nat)
    ensures n <= |dirs| + 1
  {
    if cs == [] then 0 else IndexOf(dirs, cs, 0) + 1
  }

  lemma NumberIsWalk(t: Table, cs: seq<string>)
    requires WellFormed(t) && (cs == [] || cs in Dirs(t))
    ensures NumberOf(Dirs(t), cs) == Walk(t, cs)
  {
    if cs != [] {
      DirsAreWalkable(t, cs);
      var j, k := IndexOf(Dirs(t), cs, 0), Walk(t, cs) - 1;
      if j < k {
        DirsDiffer(t, j, k);
      }
    }
  }

  /** `mkdir` on a list of directories. The last component is kept as the field
      stores it, so a long name becomes another directory than the one asked for. */
  function DirsMkdir(dirs: seq<seq<string>>, cs: seq<string>): (seq<seq<string>>, int) {
    if cs == [] || cs in dirs then (dirs, -EEXIST)
    else
      var upper, name := cs[..|cs| - 1], cs[|cs| - 1];
      if upper != [] && upper !in dirs then (dirs, -ENOENT)
      else if |dirs| >= NODE_TABLE_SIZE then (dirs, -EDQUOT)
      else (dirs + [upper + [Stored(name, NumberOf(dirs, upper))]], 0)
  }

  /** What a creation adds to the list is a directory path, and a new one. */
  predicate CleanIn(dirs: seq<seq<string>>, cs: seq<string>) {
    var (after, code) := DirsMkdir(dirs, cs);
    code == 0 ==>
      var added := after[|after| - 1];
      Component(added[|added| - 1]) && added !in dirs
  }

  // ----- One creation

  /** A name that fits `file_name` with its NUL. */
  predicate Fits(path: string)
    requires Absolute(path)
  {
    path == "/" || |BaseName(path)| < FILE_NAME_LENGTH
  }

  /** The name a creation leaves in the table. */
  function StoredName(t: Table, path: string): string
    requires Absolute(path) && path != "/"
  {
    Stored(BaseName(path), Resolve(t, SuperPath(path)))
  }

  /** The directory it adds; not the one asked for if the name was too long. */
  function Added(t: Table, path: string): seq<string>
    requires Absolute(path) && path != "/"
  {
    Parse(SuperPath(path)) + [StoredName(t, path)]
  }

  /** The stored name is a component, and its parent has no other child so called. */
  predicate Clean(t: Table, path: string)
    requires Absolute(path)
  {
    Mkdir(t, path).1 == 0 && path != "/" ==>
      && Component(StoredName(t, path))
      && Child(t, Resolve(t, SuperPath(path)), StoredName(t, path)) == NOT_FOUND
  }

  /** Writing a free entry gives its parent one more child and nobody else. */
  lemma ChildAfterWrite(t: Table, k: nat, e: Entry, parent: uint32, name: string)
    requires k < NODE_TABLE_SIZE && t[k].state == DELETED_T
    ensures !Matches(e, parent, name) ==> Child(t[k := e], parent, name) == Child(t, parent, name)
    ensures Matches(e, parent, name) && Child(t, parent, name) == NOT_FOUND
            ==> Child(t[k := e], parent, name) == k + 1
  {
    var u := t[k := e];
    var a, b := FirstMatch(t, parent, name, 0), FirstMatch(u, parent, name, 0);
    if b < NODE_TABLE_SIZE && b != k {
      assert Matches(t[b], parent, name);
    }
    if a < NODE_TABLE_SIZE {
      assert Matches(u[a], parent, name);
    }
    if Matches(e, parent, name) {
      assert Matches(u[k], parent, name);
    }
  }

  /** A node number survives its trip through `int`, and fits the table. */
  lemma NodeNumbers(t: Table, path: string)
    requires Dense(t) && Absolute(path)
    ensures ToUint32(ToInt32(Resolve(t, path))) == Resolve(t, path) == Walk(t, Parse(path))
    ensures ToInt32(Resolve(t, path)) < 0 <==> Resolve(t, path) == NOT_FOUND
    ensures Resolve(t, path) == NOT_FOUND || Resolve(t, path) <= Used(t)
  {
    ResolveIsWalk(t, path);
    WalkRange(t, Parse(path));
    IntRoundTrip(Resolve(t, path));
  }

  /** What a successful creation writes, and where. */
  lemma Created(t: Table, path: string) returns (k: nat, father: uint32)
    requires Dense(t) && Absolute(path) && Mkdir(t, path).1 == 0
    ensures path != "/" && k == Used(t) < NODE_TABLE_SIZE
    ensures father == Resolve(t, SuperPath(path)) == Walk(t, Parse(SuperPath(path))) <= k
    ensures Resolve(t, path) == NOT_FOUND == Child(t, father, BaseName(path))
    ensures Mkdir(t, path).0 == t[k := Entry(DIRECTORY_T, StoredName(t, path), father, 0)]
  {
    k := Used(t);
    father := Resolve(t, SuperPath(path));
    NodeNumbers(t, SuperPath(path));
  }

  lemma UsedIs(t: Table, n: nat)
    requires n <= NODE_TABLE_SIZE
    requires forall j :: 0 <= j < n ==> t[j].state != DELETED_T
    requires n < NODE_TABLE_SIZE ==> t[n].state == DELETED_T
    ensures Used(t) == n
  {
    if Used(t) < n {
      assert false;
    }
  }

  /** Whatever is created, with names of any length, the live entries stay a prefix
      of the table with earlier parents, one longer after a success. */
  lemma MkdirKeepsDense(t: Table, path: string)
    requires Dense(t) && Absolute(path)
    ensures Dense(Mkdir(t, path).0)
    ensures Used(Mkdir(t, path).0) == Used(t) + if Mkdir(t, path).1 == 0 then 1 else 0
  {
    if Mkdir(t, path).1 == 0 {
      var k, father := Created(t, path);
      var u := Mkdir(t, path).0;
      assert forall j :: 0 <= j < k ==> u[j] == t[j];
      assert forall j :: k < j < NODE_TABLE_SIZE ==> u[j] == t[j];
      UsedIs(u, k + 1);
    }
  }

  lemma CleanKeepsWellFormed(t: Table, path: string)
    requires WellFormed(t) && Absolute(path) && Clean(t, path)
    ensures WellFormed(Mkdir(t, path).0)
  {
    MkdirKeepsDense(t, path);
    if Mkdir(t, path).1 == 0 {
      var k, father := Created(t, path);
      var u := Mkdir(t, path).0;
      forall j | 0 <= j < k ensures u[j].parent != u[k].parent || u[j].name != u[k].name {
        assert !Matches(t[j], father, StoredName(t, path));
      }
    }
  }

  lemma WellFormedBefore(t: Table, path: string)
    requires Dense(t) && Absolute(path) && WellFormed(Mkdir(t, path).0)
    ensures WellFormed(t)
  {
    MkdirKeepsDense(t, path);
    if Mkdir(t, path).1 == 0 {
      var k, father := Created(t, path);
      var u := Mkdir(t, path).0;
      assert forall j :: 0 <= j < k ==> u[j] == t[j];
    }
  }

  lemma WellFormedMeansClean(t: Table, path: string)
    requires Dense(t) && Absolute(path) && WellFormed(Mkdir(t, path).0)
    ensures Clean(t, path)
  {
    MkdirKeepsDense(t, path);
    if Mkdir(t, path).1 == 0 {
      var k, father := Created(t, path);
      var u := Mkdir(t, path).0;
      assert u[k].name == StoredName(t, path) && u[k].parent == father;
      forall j | 0 <= j < k ensures !Matches(t[j], father, StoredName(t, path)) {
        assert u[j] == t[j];
      }
    }
  }

  /** A creation leaves a well-formed table exactly when there was one and it is a
      clean one. */
  lemma WellFormedIffClean(t: Table, path: string)
    requires Dense(t) && Absolute(path)
    ensures WellFormed(Mkdir(t, path).0) <==> WellFormed(t) && Clean(t, path)
  {
    if WellFormed(Mkdir(t, path).0) {
      WellFormedBefore(t, path);
      WellFormedMeansClean(t, path);
    } else if WellFormed(t) && Clean(t, path) {
      CleanKeepsWellFormed(t, path);
    }
  }

  /** A name that fits is clean, and what is added is what was asked for. */
  lemma FitsIsClean(t: Table, path: string)
    requires Dense(t) && Absolute(path) && Fits(path) && path != "/"
    ensures Clean(t, path) && Added(t, path) == Parse(path)
  {
    ParseStep(path);
    if Mkdir(t, path).1 == 0 {
      var k, father := Created(t, path);
    }
  }

  lemma SameNodeSamePath(t: Table, cs: seq<string>, ds: seq<string>)
    requires WellFormed(t) && Walk(t, cs) == Walk(t, ds) != NOT_FOUND
    ensures cs == ds
  {
    WalkRange(t, cs);
    WalkRange(t, ds);
    if cs != [] {
      ResolvesToPathOf(t, cs);
      ResolvesToPathOf(t, ds);
    }
  }

  /** No live entry names a free slot as its parent. */
  lemma NothingBelow(t: Table, parent: uint32, name: string)
    requires Dense(t) && Used(t) < parent
    ensures Child(t, parent, name) == NOT_FOUND
  {
    var k := FirstMatch(t, parent, name, 0);
    assert k < NODE_TABLE_SIZE ==> !Matches(t[k], parent, name);
  }

  /** One level of a descent after a creation. */
  lemma ChildAfterCreation(t: Table, path: string, upper: seq<string>, c: string)
    requires WellFormed(t) && Absolute(path) && path != "/" && Clean(t, path) && Mkdir(t, path).1 == 0
    ensures Child(Mkdir(t, path).0, Walk(t, upper), c)
         == if upper == Parse(SuperPath(path)) && c == StoredName(t, path) then Used(t) + 1
            else Child(t, Walk(t, upper), c)
  {
    var k, father := Created(t, path);
    var e := Mkdir(t, path).0[k];
    ChildAfterWrite(t, k, e, Walk(t, upper), c);
    if Walk(t, upper) == father {
      SameNodeSamePath(t, upper, Parse(SuperPath(path)));
    }
  }

  lemma AboveUsed(t: Table, path: string, c: string)
    requires Dense(t) && Absolute(path) && Mkdir(t, path).1 == 0
    ensures Child(Mkdir(t, path).0, Used(t) + 1, c) == NOT_FOUND == Child(t, NOT_FOUND, c)
  {
    var k, father := Created(t, path);
    var e := Mkdir(t, path).0[k];
    NothingBelow(t, NOT_FOUND, c);
    NothingBelow(t, k + 1, c);
    ChildAfterWrite(t, k, e, k + 1, c);
  }

  lemma AddedIsNew(t: Table, path: string)
    requires Dense(t) && Absolute(path) && path != "/" && Clean(t, path) && Mkdir(t, path).1 == 0
    ensures Walk(t, Added(t, path)) == NOT_FOUND
  {
    var cs := Added(t, path);
    assert cs[..|cs| - 1] == Parse(SuperPath(path)) && cs[|cs| - 1] == StoredName(t, path);
    ResolveIsWalk(t, SuperPath(path));
  }

  /** The added directory leads to the chosen entry; every other descent ends where
      it did, also those that pass through the new directory. */
  lemma {:induction false} WalkAfterCreation(t: Table, path: string, cs: seq<string>)
    requires WellFormed(t) && Absolute(path) && path != "/" && Clean(t, path) && Mkdir(t, path).1 == 0
    ensures Walk(Mkdir(t, path).0, cs) == if cs == Added(t, path) then Used(t) + 1 else Walk(t, cs)
    decreases |cs|
  {
    if cs == [] {
    } else {
      var upper, c := cs[..|cs| - 1], cs[|cs| - 1];
      assert cs == upper + [c];
      WalkAfterCreation(t, path, upper);
      if upper == Added(t, path) {
        AddedIsNew(t, path);
        AboveUsed(t, path, c);
      } else {
        ChildAfterCreation(t, path, upper, c);
        assert cs == Added(t, path) <==> upper == Parse(SuperPath(path)) && c == StoredName(t, path);
      }
    }
  }

  /** Path by path: a successful creation makes exactly the paths of the added
      directory resolve, to the chosen entry, and moves no other path. */
  lemma MkdirThenResolve(t: Table, path: string, other: string)
    requires WellFormed(t) && Absolute(path) && path != "/" && Clean(t, path) && Mkdir(t, path).1 == 0
    requires Absolute(other)
    ensures Resolve(Mkdir(t, path).0, other)
         == if Parse(other) == Added(t, path) then Used(t) + 1 else Resolve(t, other)
  {
    ResolveIsWalk(t, other);
    ResolveIsWalk(Mkdir(t, path).0, other);
    WalkAfterCreation(t, path, Parse(other));
  }

  lemma PathStays(t: Table, path: string, j: nat)
    requires WellFormed(t) && Absolute(path) && path != "/" && Clean(t, path) && Mkdir(t, path).1 == 0
    requires WellFormed(Mkdir(t, path).0) && Live(t, j)
    ensures Live(Mkdir(t, path).0, j) && PathOf(Mkdir(t, path).0, j) == PathOf(t, j)
  {
    PathOfResolves(t, j);
    AddedIsNew(t, path);
    WalkAfterCreation(t, path, PathOf(t, j));
    ResolvesToPathOf(Mkdir(t, path).0, PathOf(t, j));
  }

  lemma PathOfAdded(t: Table, path: string)
    requires WellFormed(t) && Absolute(path) && path != "/" && Clean(t, path) && Mkdir(t, path).1 == 0
    requires WellFormed(Mkdir(t, path).0)
    ensures Live(Mkdir(t, path).0, Used(t)) && PathOf(Mkdir(t, path).0, Used(t)) == Added(t, path)
  {
    var k, father := Created(t, path);
    WalkAfterCreation(t, path, Added(t, path));
    ResolvesToPathOf(Mkdir(t, path).0, Added(t, path));
  }

  /** Existing directories keep their numbers, and the added one gets the next. */
  lemma DirsAfterCreation(t: Table, path: string)
    requires WellFormed(t) && Absolute(path) && path != "/" && Clean(t, path) && Mkdir(t, path).1 == 0
    ensures WellFormed(Mkdir(t, path).0)
    ensures Dirs(Mkdir(t, path).0) == Dirs(t) + [Added(t, path)]
  {
    var u := Mkdir(t, path).0;
    CleanKeepsWellFormed(t, path);
    MkdirKeepsDense(t, path);
    forall j | 0 <= j < Used(t) ensures Dirs(u)[j] == Dirs(t)[j] {
      PathStays(t, path, j);
    }
    PathOfAdded(t, path);
  }

  /** The table's checks are the list's checks. */
  lemma ChecksAgree(t: Table, path: string)
    requires WellFormed(t) && Absolute(path)
    ensures Resolve(t, path) == NOT_FOUND <==> Parse(path) != [] && Parse(path) !in Dirs(t)
    ensures Resolve(t, path) != NOT_FOUND ==> Resolve(t, path) == NumberOf(Dirs(t), Parse(path))
  {
    NodeNumbers(t, path);
    DirsAreWalkable(t, Parse(path));
    if Resolve(t, path) != NOT_FOUND {
      NumberIsWalk(t, Parse(path));
    }
  }

  lemma DirsMkdirStep(dirs: seq<seq<string>>, upper: seq<string>, name: string)
    ensures DirsMkdir(dirs, upper + [name])
         == if upper + [name] in dirs then (dirs, -EEXIST)
            else if upper != [] && upper !in dirs then (dirs, -ENOENT)
            else if |dirs| >= NODE_TABLE_SIZE then (dirs, -EDQUOT)
            else (dirs + [upper + [Stored(name, NumberOf(dirs, upper))]], 0)
  {
    var cs := upper + [name];
    assert cs[..|cs| - 1] == upper && cs[|cs| - 1] == name;
  }

  /** If the list answers the table's questions, it makes the same of a creation. */
  lemma SameStep(t: Table, path: string, dirs: seq<seq<string>>, upper: seq<string>)
    requires Dense(t) && Absolute(path) && path != "/" && upper == Parse(SuperPath(path)) && |dirs| == Used(t)
    requires Resolve(t, path) == NOT_FOUND <==> upper + [BaseName(path)] !in dirs
    requires Resolve(t, SuperPath(path)) == NOT_FOUND <==> upper != [] && upper !in dirs
    requires Resolve(t, SuperPath(path)) != NOT_FOUND ==> Resolve(t, SuperPath(path)) == NumberOf(dirs, upper)
    ensures DirsMkdir(dirs, upper + [BaseName(path)]).1 == Mkdir(t, path).1
    ensures DirsMkdir(dirs, upper + [BaseName(path)]).0
         == if Mkdir(t, path).1 == 0 then dirs + [Added(t, path)] else dirs
  {
    DirsMkdirStep(dirs, upper, BaseName(path));
    NodeNumbers(t, SuperPath(path));
  }

  /** The code of a creation, and what it adds, can be told from the list. */
  lemma ListTells(t: Table, path: string)
    requires WellFormed(t) && Absolute(path)
    ensures DirsMkdir(Dirs(t), Parse(path)).1 == Mkdir(t, path).1
    ensures DirsMkdir(Dirs(t), Parse(path)).0
         == if path != "/" && Mkdir(t, path).1 == 0 then Dirs(t) + [Added(t, path)] else Dirs(t)
  {
    if path != "/" {
      ParseStep(path);
      ChecksAgree(t, path);
      ChecksAgree(t, SuperPath(path));
      SameStep(t, path, Dirs(t), Parse(SuperPath(path)));
    }
  }

  /** So can whether it is clean. */
  lemma CleanIffCleanIn(t: Table, path: string)
    requires WellFormed(t) && Absolute(path)
    ensures Clean(t, path) <==> CleanIn(Dirs(t), Parse(path))
  {
    ListTells(t, path);
    if path != "/" && Mkdir(t, path).1 == 0 {
      var cs := Added(t, path);
      assert cs[..|cs| - 1] == Parse(SuperPath(path)) && cs[|cs| - 1] == StoredName(t, path);
      ResolveIsWalk(t, SuperPath(path));
      DirsAreWalkable(t, cs);
    }
  }

  /** One creation on a set of directories leaves one exactly when it is clean, and is
      then one creation on the list, with the same code in every case. */
  lemma MkdirRefinesDirs(t: Table, path: string)
    requires WellFormed(t) && Absolute(path)
    ensures WellFormed(Mkdir(t, path).0) <==> CleanIn(Dirs(t), Parse(path))
    ensures CleanIn(Dirs(t), Parse(path)) ==>
              (Dirs(Mkdir(t, path).0), Mkdir(t, path).1) == DirsMkdir(Dirs(t), Parse(path))
  {
    WellFormedIffClean(t, path);
    CleanIffCleanIn(t, path);
    ListTells(t, path);
    if Mkdir(t, path).1 == 0 && Clean(t, path) {
      DirsAfterCreation(t, path);
    }
  }

  /** A creation on a table as requests can leave it, and on a set of directories. */
  lemma MkdirKeeps(t: Table, path: string)
    requires Absolute(path)
    ensures Dense(t) ==> Dense(Mkdir(t, path).0)
    ensures WellFormed(t) ==>
              && (WellFormed(Mkdir(t, path).0) <==> CleanIn(Dirs(t), Parse(path)))
              && (CleanIn(Dirs(t), Parse(path)) ==>
                    (Dirs(Mkdir(t, path).0), Mkdir(t, path).1) == DirsMkdir(Dirs(t), Parse(path)))
  {
    if Dense(t) {
      MkdirKeepsDense(t, path);
    }
    if WellFormed(t) {
      MkdirRefinesDirs(t, path);
    }
  }

  // ----- Histories

  /** The table and the codes after a sequence of requests. */
  function History(t: Table, paths: seq<string>): (Table, seq<int>)
    requires forall p :: p in paths ==> Absolute(p)
  {
    if paths == [] then (t, [])
    else
      var (u, codes) := History(t, paths[..|paths| - 1]);
      var (v, code) := Mkdir(u, paths[|paths| - 1]);
      (v, codes + [code])
  }

  function DirsHistory(dirs: seq<seq<string>>, paths: seq<string>): (seq<seq<string>>, seq<int>)
    requires forall p :: p in paths ==> Absolute(p)
  {
    if paths == [] then (dirs, [])
    else
      var (u, codes) := DirsHistory(dirs, paths[..|paths| - 1]);
      var (v, code) := DirsMkdir(u, Parse(paths[|paths| - 1]));
      (v, codes + [code])
  }

  /** Every creation of the history is clean when it comes. */
  predicate CleanHistory(dirs: seq<seq<string>>, paths: seq<string>)
    requires forall p :: p in paths ==> Absolute(p)
  {
    paths == [] ||
    var before := paths[..|paths| - 1];
    CleanHistory(dirs, before) && CleanIn(DirsHistory(dirs, before).0, Parse(paths[|paths| - 1]))
  }

  /** Whatever is requested of an empty table, with names of any length, live entries
      are a prefix with earlier parents. The table is a set of directories exactly
      when all creations were clean, and then its contents, their numbers and all
      answers are those of the list. */
  lemma {:induction false} HistoryRefinesDirs(t: Table, paths: seq<string>)
    requires forall k :: 0 <= k < NODE_TABLE_SIZE ==> t[k].state == DELETED_T
    requires forall p :: p in paths ==> Absolute(p)
    ensures Dense(History(t, paths).0)
    ensures WellFormed(History(t, paths).0) <==> CleanHistory([], paths)
    ensures CleanHistory([], paths) ==>
              (Dirs(History(t, paths).0), History(t, paths).1) == DirsHistory([], paths)
    decreases |paths|
  {
    if paths == [] {
      assert Used(t) == 0;
    } else {
      var before, p := paths[..|paths| - 1], paths[|paths| - 1];
      assert p in paths && forall q :: q in before ==> q in paths;
      HistoryRefinesDirs(t, before);
      var u := History(t, before).0;
      MkdirKeepsDense(u, p);
      WellFormedIffClean(u, p);
      if WellFormed(u) {
        MkdirRefinesDirs(u, p);
      }
    }
  }

  /** Requests whose names fit the field make a clean history. */
  lemma {:induction false} FittingNamesAreClean(t: Table, paths: seq<string>)
    requires forall k :: 0 <= k < NODE_TABLE_SIZE ==> t[k].state == DELETED_T
    requires forall p :: p in paths ==> Absolute(p) && Fits(p)
    ensures CleanHistory([], paths)
    decreases |paths|
  {
    if paths == [] {
    } else {
      var before, p := paths[..|paths| - 1], paths[|paths| - 1];
      assert p in paths && forall q :: q in before ==> q in paths;
      FittingNamesAreClean(t, before);
      HistoryRefinesDirs(t, before);
      var u := History(t, before).0;
      if p != "/" {
        FitsIsClean(u, p);
      }
      CleanIffCleanIn(u, p);
    }
  }

  // ----- Where the naming rules stop holding

  /** In a table that requests can reach a slash appended to a path is idle exactly when the
      path has none yet or leads nowhere. */
  lemma TrailingSlashIdle(t: Table, path: string)
    requires Dense(t) && Absolute(path)
    ensures Resolve(t, path + "/") == Resolve(t, path)
       <==> !EndsWithSlash(path) || Resolve(t, path) == NOT_FOUND
  {
    ParseTrailingSlash(path);
    ResolveIsWalk(t, path);
    ResolveIsWalk(t, path + "/");
    if EndsWithSlash(path) {
      var cs, node := Parse(path), Walk(t, Parse(path));
      assert (cs + [""])[..|cs|] == cs;
      assert Walk(t, cs + [""]) == Child(t, node, "");
      WalkRange(t, cs);
      WalkRange(t, cs + [""]);
    }
  }

  /** A directory that was reported as created can be found exactly when its name
      fits the field, or when what lies past byte 71 of it is what its parent's number
      puts there: nothing for a multiple of 256, else that number's one or two bytes. */
  lemma FoundIffNameFits(t: Table, path: string)
    requires Dense(t) && Absolute(path) && Mkdir(t, path).1 == 0
    ensures path != "/"
    ensures var name, parent := BaseName(path), Resolve(t, SuperPath(path));
            && parent <= 1024
            && (Resolve(Mkdir(t, path).0, path) != NOT_FOUND
                <==> |name| < 71
                     || name[71..] == if parent % 256 == 0 then ""
                                      else if parent < 256 then [parent as char]
                                      else [(parent % 256) as char, (parent / 256) as char])
  {
    var k, father := Created(t, path);
    var u, name := Mkdir(t, path).0, BaseName(path);
    ResolveIsWalk(u, SuperPath(path));
    ExistingStays(t, k, u[k], Parse(SuperPath(path)));
    ChildAfterWrite(t, k, u[k], father, name);
    ParentBytesOfNumber(father);
    if |name| >= FILE_NAME_LENGTH {
      assert name == name[..FILE_NAME_LENGTH] + name[FILE_NAME_LENGTH..];
      if Stored(name, father) == name {
        assert name[FILE_NAME_LENGTH..] == ParentBytes(father);
      }
    }
  }

  /** A name of 71 bytes, one too many for its NUL, is found if and only if its parent's
      number is a multiple of 256, as the root's is. */
  lemma OneByteTooLong(t: Table, path: string)
    requires Dense(t) && Absolute(path) && Mkdir(t, path).1 == 0
    requires path != "/" && |BaseName(path)| == 71
    ensures Resolve(Mkdir(t, path).0, path) != NOT_FOUND <==> Resolve(t, SuperPath(path)) % 256 == 0
  {
    FoundIffNameFits(t, path);
    assert BaseName(path)[71..] == "";
  }

  /** In an empty table a 72-byte name under the root is reported as created and
      then cannot be found. */
  lemma LongNameIsLost(t: Table)
    requires forall k :: 0 <= k < NODE_TABLE_SIZE ==> t[k].state == DELETED_T
    ensures var path := "/" + seq(72, i => 'x');
            Absolute(path) && Mkdir(t, path).1 == 0 && Resolve(Mkdir(t, path).0, path) == NOT_FOUND
  {
    var name: string := seq(72, i => 'x');
    var path := "/" + name;
    assert forall j :: 0 < j < |path| ==> path[j] == 'x';
    assert Trimmed(path) == path;
    assert path[0] == '/';
    assert SuperPath(path) == "/" && BaseName(path) == name;
    UsedIs(t, 0);
    assert FirstMatch(t, 0, name, 0) == NODE_TABLE_SIZE;
    FoundIffNameFits(t, path);
    ResolveIsWalk(t, "/");
    assert name[71..] != "";
  }

  /** A directory that cannot be found is created again when it is asked for again,
      and then has a twin. */
  lemma LostNameIsDoubled(t: Table, path: string)
    requires Dense(t) && Absolute(path) && Mkdir(t, path).1 == 0
    requires Resolve(Mkdir(t, path).0, path) == NOT_FOUND && Used(t) + 1 < NODE_TABLE_SIZE
    ensures path != "/"
    ensures Mkdir(Mkdir(t, path).0, path).1 == 0
    ensures !WellFormed(Mkdir(Mkdir(t, path).0, path).0)
  {
    var k, father := Created(t, path);
    var u := Mkdir(t, path).0;
    MkdirKeepsDense(t, path);
    ResolveIsWalk(u, SuperPath(path));
    ExistingStays(t, k, u[k], Parse(SuperPath(path)));
    NodeNumbers(u, SuperPath(path));
    assert u[k].parent == father && u[k].name == StoredName(t, path) == StoredName(u, path);
    WellFormedIffClean(u, path);
    assert Matches(u[k], father, StoredName(u, path));
    assert FirstMatch(u, father, StoredName(u, path), 0) <= k;
  }

  /** Whatever is written to a free entry, existing paths keep their nodes. */
  lemma {:induction false} ExistingStays(t: Table, k: nat, e: Entry, cs: seq<string>)
    requires Dense(t) && k == Used(t) < NODE_TABLE_SIZE && Walk(t, cs) != NOT_FOUND
    ensures Walk(t[k := e], cs) == Walk(t, cs)
    decreases |cs|
  {
    if cs == [] {
    } else {
      var upper, c := cs[..|cs| - 1], cs[|cs| - 1];
      var parent := Walk(t, upper);
      WalkRange(t, upper);
      var j := FirstMatch(t, parent, c, 0);
      assert Matches(t[j], parent, c) && j < k;
      ExistingStays(t, k, e, upper);
      assert Matches(t[k := e][j], parent, c);
      assert FirstMatch(t[k := e], parent, c, 0) == j;
    }
  }
}
