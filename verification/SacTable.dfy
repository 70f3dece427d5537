/** The node table of the SAC file system as a value: resolution of a path,
    creation of a directory, and the directory tree both of them stand for. */
module SacTable {
  import opened Bytes
  import opened CTypes
  import opened SacPath

  const NODE_TABLE_SIZE: nat := 1024
  const FILE_NAME_LENGTH: nat := 71

  const DELETED_T: nat := 0
  const DIRECTORY_T: nat := 2

  const EEXIST: int := 17
  const ENOENT: int := 2
  const EDQUOT: int := 122

  /** What `determinar_nodo` answers for "not there": -1 seen as a `uint32_t`. */
  const NOT_FOUND: uint32 := 0xFFFF_FFFF

  /** One entry; `name` is what `strcmp` reads from `file_name` on, and `parent`
      holds the 1-based number of the parent's entry, 0 for the root. */
  datatype Entry = Entry(state: nat, name: string, parent: uint32, size: nat)

  type Table = t: seq<Entry> | |t| == NODE_TABLE_SIZE
    witness seq(NODE_TABLE_SIZE, i => Entry(0, "", 0, 0))

  // ----- Resolution

  predicate Matches(e: Entry, parent: uint32, name: string) {
    e.parent == parent && e.name == name && e.state != DELETED_T
  }

  /** First index at or after `i` whose entry matches, or the table's length. */
  function FirstMatch(t: seq<Entry>, parent: uint32, name: string, i: nat): (k: nat)
    requires i <= |t|
    ensures i <= k <= |t|
    ensures forall j :: i <= j < k ==> !Matches(t[j], parent, name)
    ensures k < |t| ==> Matches(t[k], parent, name)
    decreases |t| - i
  {
    if i == |t| || Matches(t[i], parent, name) then i
    else FirstMatch(t, parent, name, i + 1)
  }

  /** Number of the entry called `name` under the node `parent`. */
  function Child(t: Table, parent: uint32, name: string): uint32 {
    var k := FirstMatch(t, parent, name, 0);
    if k == NODE_TABLE_SIZE then NOT_FOUND else k + 1
  }

  /** `determinar_nodo`: resolves the upper path, then looks for the name there. */
  function Resolve(t: Table, path: string): uint32
    requires Absolute(path)
    decreases |path|
  {
    if path == "/" then 0
    else Child(t, Resolve(t, SuperPath(path)), BaseName(path))
  }

  /** A scan for a path's last component that has stopped at `i` has resolved it. */
  lemma ScanResolves(t: Table, path: string, i: nat)
    requires Absolute(path) && path != "/" && i <= NODE_TABLE_SIZE
    requires forall j :: 0 <= j < i ==> !Matches(t[j], Resolve(t, SuperPath(path)), BaseName(path))
    requires i < NODE_TABLE_SIZE ==> Matches(t[i], Resolve(t, SuperPath(path)), BaseName(path))
    ensures Resolve(t, path) == if i == NODE_TABLE_SIZE then NOT_FOUND else i + 1
  {
    assert FirstMatch(t, Resolve(t, SuperPath(path)), BaseName(path), 0) == i;
  }

  /** Descent from the root, component by component. */
  function Walk(t: Table, cs: seq<string>): uint32 {
    if cs == [] then 0 else Child(t, Walk(t, cs[..|cs| - 1]), cs[|cs| - 1])
  }

  /** String-level resolution is the descent along the path's components. */
  lemma {:induction false} ResolveIsWalk(t: Table, path: string)
    requires Absolute(path)
    ensures Resolve(t, path) == Walk(t, Parse(path))
    decreases |path|
  {
    if path == "/" {
    } else {
      ResolveIsWalk(t, SuperPath(path));
      ParseStep(path);
      var cs := Parse(path);
      assert cs[..|cs| - 1] == Parse(SuperPath(path)) && cs[|cs| - 1] == BaseName(path);
    }
  }

  // ----- Creation

  /** First index at or after `i` whose entry is free, or the table's length. */
  function FirstFree(t: seq<Entry>, i: nat): (k: nat)
    requires i <= |t|
    ensures i <= k <= |t|
    ensures forall j :: i <= j < k ==> t[j].state != DELETED_T
    ensures k < |t| ==> t[k].state == DELETED_T
    decreases |t| - i
  {
    if i == |t| || t[i].state == DELETED_T then i else FirstFree(t, i + 1)
  }

  /** Number of entries in use when the live ones form a prefix. */
  function Used(t: Table): nat {
    FirstFree(t, 0)
  }

  /** The four bytes of `parent_dir_block`, which follow `file_name` in memory,
      as `strcmp` sees them. */
  function ParentBytes(parent: uint32): string {
    CString([(parent % 256) as char, (parent / 256 % 256) as char,
             (parent / 0x1_0000 % 256) as char, (parent / 0x100_0000 % 256) as char])
  }

  /** That is the part of the number's four bytes before their first zero. */
  lemma ParentBytesEnd(parent: uint32)
    ensures |ParentBytes(parent)| <= 4
    ensures forall i :: 0 <= i < |ParentBytes(parent)| ==> ParentBytes(parent)[i] as int == Le32(parent)[i] != 0
    ensures |ParentBytes(parent)| < 4 ==> Le32(parent)[|ParentBytes(parent)|] == 0
  {
    var buffer := [(parent % 256) as char, (parent / 256 % 256) as char,
                   (parent / 0x1_0000 % 256) as char, (parent / 0x100_0000 % 256) as char];
    CStringIsPrefix(buffer);
    assert forall i :: 0 <= i < |CString(buffer)| ==> CString(buffer)[i] in CString(buffer);
  }

  /** For the numbers of a table: nothing for a multiple of 256, the number itself below
      256, and its lower and then its higher byte otherwise. */
  lemma ParentBytesOfNumber(parent: uint32)
    requires parent < 0x1_0000
    ensures ParentBytes(parent)
         == if parent % 256 == 0 then ""
            else if parent < 256 then [parent as char]
            else [(parent % 256) as char, (parent / 256) as char]
  {
    ParentBytesEnd(parent);
    var r, b := ParentBytes(parent), Le32(parent);
    assert b[0] == parent % 256 && b[1] == parent / 256 && b[2] == 0;
    if b[0] == 0 {
      assert |r| == 0;
    } else if b[1] == 0 {
      assert |r| == 1 && r == [r[0]];
    } else {
      assert |r| == 2 && r == [r[0], r[1]];
    }
  }

  /** What is read back as the name after `strcpy` into the 71-byte field and
      the write of the parent and of a zero size behind it. */
  function Stored(name: string, parent: uint32): string {
    if |name| < FILE_NAME_LENGTH then name
    else name[..FILE_NAME_LENGTH] + ParentBytes(parent)
  }

  /** `sac_create_directory`: the new table and the returned code. */
  function Mkdir(t: Table, path: string): (r: (Table, int))
    requires Absolute(path)
  {
    if Resolve(t, path) != NOT_FOUND then (t, -EEXIST)
    else
      var father := ToInt32(Resolve(t, SuperPath(path)));
      if father < 0 then (t, -ENOENT)
      else
        var k := FirstFree(t, 0);
        if k == NODE_TABLE_SIZE then (t, -EDQUOT)
        else (t[k := Entry(DIRECTORY_T, Stored(BaseName(path), ToUint32(father)), ToUint32(father), 0)], 0)
  }

  /** Resolution, by the fields of the table: 0 for the root; else the number of the
      first entry in use that has the name and the upper path's number for a parent,
      counted from 1, or 0xFFFFFFFF if there is none. */
  lemma ResolveByFields(t: Table, path: string)
    requires Absolute(path)
    ensures path == "/" ==> Resolve(t, path) == 0
    ensures path != "/" ==>
              var r, parent, name := Resolve(t, path), Resolve(t, SuperPath(path)), BaseName(path);
              && (r == 0xFFFF_FFFF || 1 <= r <= 1024)
              && (r <= 1024 ==> t[r - 1].parent == parent && t[r - 1].name == name && t[r - 1].state != 0)
              && (forall k :: 0 <= k < 1024 && (r == 0xFFFF_FFFF || k < r - 1) ==>
                    !(t[k].parent == parent && t[k].name == name && t[k].state != 0))
  {
    if path != "/" {
      var k := FirstMatch(t, Resolve(t, SuperPath(path)), BaseName(path), 0);
      assert forall j :: 0 <= j < k ==> !Matches(t[j], Resolve(t, SuperPath(path)), BaseName(path));
    }
  }

  /** The code of a creation: -17 for a path that resolves, -2 if its upper path does
      not, -122 if no entry is free, else 0; only the last one changes the table. */
  lemma MkdirCodes(t: Table, path: string)
    requires Absolute(path)
    ensures Mkdir(t, path).1
         == if path == "/" || Resolve(t, path) != 0xFFFF_FFFF then -17
            else if Resolve(t, SuperPath(path)) == 0xFFFF_FFFF then -2
            else if forall k :: 0 <= k < 1024 ==> t[k].state != 0 then -122
            else 0
    ensures Mkdir(t, path).1 != 0 ==> Mkdir(t, path).0 == t
  {
    if path != "/" {
      ResolveByFields(t, path);
      ResolveByFields(t, SuperPath(path));
      assert FirstFree(t, 0) < NODE_TABLE_SIZE ==> t[FirstFree(t, 0)].state == 0;
    }
  }

  /** What a successful creation writes: the first free entry becomes a directory of no
      size with the upper path's number for a parent. A name of 71 bytes or more is
      read back as its first 71 followed by what that number puts behind them. */
  lemma MkdirWrites(t: Table, path: string) returns (k: nat)
    requires Absolute(path) && Mkdir(t, path).1 == 0
    ensures path != "/" && k < 1024
    ensures t[k].state == 0 && forall j :: 0 <= j < k ==> t[j].state != 0
    ensures var name, parent := BaseName(path), Resolve(t, SuperPath(path));
            && parent <= 1024
            && Mkdir(t, path).0 == t[k := Mkdir(t, path).0[k]]
            && Mkdir(t, path).0[k].state == 2
            && Mkdir(t, path).0[k].parent == parent
            && Mkdir(t, path).0[k].size == 0
            && Mkdir(t, path).0[k].name
               == if |name| < 71 then name
                  else name[..71] + (if parent % 256 == 0 then ""
                                     else if parent < 256 then [parent as char]
                                     else [(parent % 256) as char, (parent / 256) as char])
  {
    k := FirstFree(t, 0);
    var parent := Resolve(t, SuperPath(path));
    ResolveByFields(t, SuperPath(path));
    IntRoundTrip(parent);
    ParentBytesOfNumber(parent);
  }

  // ----- The invariant of reachable tables

  predicate Live(t: Table, k: nat) {
    k < NODE_TABLE_SIZE && t[k].state != DELETED_T
  }

  /** Live entries form a prefix, and each has the root or an earlier entry for a
      parent. */
  predicate Dense(t: Table) {
    && (forall k :: Used(t) <= k < NODE_TABLE_SIZE ==> t[k].state == DELETED_T)
    && (forall k :: 0 <= k < Used(t) ==> t[k].parent <= k)
  }

  /** Moreover each live entry has a component for a name, and no twin. */
  ghost predicate WellFormed(t: Table) {
    && Dense(t)
    && (forall k :: 0 <= k < Used(t) ==> Component(t[k].name))
    && (forall j, k :: 0 <= j < k < Used(t) ==> t[j].parent != t[k].parent || t[j].name != t[k].name)
  }

  /** The components that lead to entry `k`, read off its chain of parents. */
  function PathOf(t: Table, k: nat): (cs: seq<string>)
    requires WellFormed(t) && Live(t, k)
    ensures cs != []
    decreases k
  {
    if t[k].parent == 0 then [t[k].name] else PathOf(t, t[k].parent - 1) + [t[k].name]
  }

  lemma {:induction false} PathOfHasComponents(t: Table, k: nat)
    requires WellFormed(t) && Live(t, k)
    ensures Components(PathOf(t, k))
    decreases k
  {
    if t[k].parent == 0 {
    } else {
      PathOfHasComponents(t, t[k].parent - 1);
    }
  }

  /** A descent ends at the root, at a live entry or nowhere. */
  lemma WalkRange(t: Table, cs: seq<string>)
    ensures Walk(t, cs) == NOT_FOUND || Walk(t, cs) <= NODE_TABLE_SIZE
    ensures Walk(t, cs) == 0 <==> cs == []
    ensures 0 < Walk(t, cs) <= NODE_TABLE_SIZE ==> Live(t, Walk(t, cs) - 1)
  {
  }

  /** An entry without twins is what a search for its name under its parent finds. */
  lemma FoundByName(t: Table, k: nat)
    requires WellFormed(t) && Live(t, k)
    ensures Child(t, t[k].parent, t[k].name) == k + 1
  {
    assert Matches(t[k], t[k].parent, t[k].name);
    assert forall j :: 0 <= j < k ==> !Matches(t[j], t[k].parent, t[k].name);
    assert FirstMatch(t, t[k].parent, t[k].name, 0) == k;
  }

  /** Half of the bijection: the chain of parents of a live entry resolves to it. */
  lemma {:induction false} PathOfResolves(t: Table, k: nat)
    requires WellFormed(t) && Live(t, k)
    ensures Walk(t, PathOf(t, k)) == k + 1
    decreases k
  {
    var cs := PathOf(t, k);
    var e := t[k];
    if e.parent == 0 {
      assert cs[..|cs| - 1] == [];
    } else {
      PathOfResolves(t, e.parent - 1);
      assert cs[..|cs| - 1] == PathOf(t, e.parent - 1);
    }
    FoundByName(t, k);
  }

  /** The other half: only that chain does. */
  lemma {:induction false} ResolvesToPathOf(t: Table, cs: seq<string>)
    requires WellFormed(t) && Walk(t, cs) != 0 && Walk(t, cs) != NOT_FOUND
    ensures Live(t, Walk(t, cs) - 1)
    ensures PathOf(t, Walk(t, cs) - 1) == cs
    decreases |cs|
  {
    var upper, c := cs[..|cs| - 1], cs[|cs| - 1];
    var k := Walk(t, cs) - 1;
    assert Matches(t[k], Walk(t, upper), c);
    assert cs == upper + [c];
    if upper == [] {
    } else {
      WalkRange(t, upper);
      ResolvesToPathOf(t, upper);
    }
  }

  /** Live entries and existing paths correspond one to one. */
  lemma Bijection(t: Table, path: string, k: nat)
    requires WellFormed(t) && Absolute(path) && Live(t, k)
    ensures Resolve(t, path) == k + 1 <==> Parse(path) == PathOf(t, k)
    ensures Absolute(Render(PathOf(t, k))) && Resolve(t, Render(PathOf(t, k))) == k + 1
  {
    ResolveIsWalk(t, path);
    PathOfResolves(t, k);
    if Resolve(t, path) == k + 1 {
      ResolvesToPathOf(t, Parse(path));
    }
    PathOfHasComponents(t, k);
    ParseRender(PathOf(t, k));
    ResolveIsWalk(t, Render(PathOf(t, k)));
  }
}
