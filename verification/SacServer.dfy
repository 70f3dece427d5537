/** The SAC server's code over its node table: two character buffers cut in
    place, a scan of the table, and a write into the chosen entry. */
module SacServer {
  import opened CTypes
  import opened SacPath
  import opened SacTable
  import opened SacTree

  /** `strcpy` into a buffer that is large enough. */
  method CopyString(buffer: array<char>, s: string)
    requires |s| < buffer.Length && NUL !in s
    modifies buffer
    ensures CString(buffer[..]) == s
  {
    forall i | 0 <= i < |s| {
      buffer[i] := s[i];
    }
    buffer[|s|] := NUL;
    assert buffer[..][..|s|] == s;
    CStringEndsAt(buffer[..], |s|);
  }

  /** Ends the string a buffer holds at position `n`. */
  method CutString(buffer: array<char>, n: nat)
    requires n <= |CString(buffer[..])| && n < buffer.Length
    modifies buffer
    ensures CString(buffer[..]) == old(CString(buffer[..]))[..n]
  {
    CStringIsPrefix(buffer[..]);
    ghost var before := buffer[..];
    buffer[n] := NUL;
    assert buffer[..][..n] == before[..n] == CString(before)[..n];
    CStringEndsAt(buffer[..], n);
  }

  /** Drops the last character of the string if it is a slash. */
  method TrimSlash(buffer: array<char>)
    requires CString(buffer[..]) != []
    modifies buffer
    ensures CString(buffer[..]) == Trimmed(old(CString(buffer[..])))
  {
    var s := CString(buffer[..]);
    if EndsWithSlash(s) {
      CutString(buffer, |s| - 1);
    }
  }

  /** `split_path`: cuts `path` in two. `superPath` holds the upper part from
      its beginning, `name` the last component from the returned position on. */
  method SplitPath(path: string, superPath: array<char>, name: array<char>) returns (start: nat)
    requires Absolute(path) && path != "/"
    requires superPath.Length > |path| && name.Length > |path| && superPath != name
    modifies superPath, name
    ensures CString(superPath[..]) == SuperPath(path)
    ensures start < name.Length && CString(name[start..]) == BaseName(path)
    ensures path == CString(superPath[..]) + CString(name[start..]) + if EndsWithSlash(path) then "/" else ""
  {
    CutIsExact(path);
    CopyString(superPath, path);
    CopyString(name, path);
    TrimSlash(name);
    start := LastSlash(CString(name[..])) + 1;
    assert Trimmed(path)[0] == '/';
    CStringFrom(name[..], start);
    assert name[..][start..] == name[start..];

    TrimSlash(superPath);
    var length := |CString(superPath[..])| - |CString(name[start..])|;
    CutString(superPath, length);
  }

  class NodeTable {
    const entries: array<Entry>

    ghost predicate Valid()
      reads this
    {
      entries.Length == NODE_TABLE_SIZE
    }

    ghost function Contents(): Table
      requires Valid()
      reads this, entries
    {
      entries[..]
    }

    /** A table whose entries are all free. */
    constructor ()
      ensures Valid() && fresh(entries)
      ensures forall k :: 0 <= k < NODE_TABLE_SIZE ==> Contents()[k].state == DELETED_T
    {
      entries := new Entry[NODE_TABLE_SIZE](i => Entry(DELETED_T, "", 0, 0));
    }

    /** The scan of `determinar_nodo`. The entry is read only while one is left; the
        C loop reads once more. */
    method FindChild(parent: int32, wanted: string) returns (i: nat)
      requires Valid()
      ensures i <= NODE_TABLE_SIZE
      ensures forall j :: 0 <= j < i ==> !Matches(Contents()[j], ToUint32(parent), wanted)
      ensures i < NODE_TABLE_SIZE ==> Matches(Contents()[i], ToUint32(parent), wanted)
    {
      i := 0;
      while i < NODE_TABLE_SIZE &&
            (entries[i].parent != ToUint32(parent) || entries[i].name != wanted || entries[i].state == DELETED_T)
        invariant 0 <= i <= NODE_TABLE_SIZE
        invariant forall j :: 0 <= j < i ==> !Matches(entries[j], ToUint32(parent), wanted)
      {
        i := i + 1;
      }
    }

    /** `determinar_nodo`. */
    method FindNode(path: string) returns (node: uint32)
      requires Valid() && Absolute(path)
      ensures node == Resolve(Contents(), path)
      decreases |path|
    {
      if path == "/" {
        return 0;
      }
      var superPath := new char[|path| + 1];
      var name := new char[|path| + 1];
      var start := SplitPath(path, superPath, name);
      var previous: uint32 := FindNode(CString(superPath[..]));
      IntRoundTrip(previous);
      var i := FindChild(ToInt32(previous), CString(name[start..]));
      ScanResolves(Contents(), path, i);
      if i >= NODE_TABLE_SIZE {
        return ToUint32(-1);
      }
      return i + 1;
    }

    /** The search for a free entry. `node` lags one behind `i`, and is past
        the table only when `i` is too. */
    method FindFree() returns (i: nat, node: nat)
      requires Valid()
      ensures i <= NODE_TABLE_SIZE <==> FirstFree(Contents(), 0) < NODE_TABLE_SIZE
      ensures i <= NODE_TABLE_SIZE ==> node == FirstFree(Contents(), 0)
    {
      i, node := 0, 0;
      while i <= NODE_TABLE_SIZE && entries[node].state != DELETED_T
        invariant 0 <= i <= NODE_TABLE_SIZE + 1
        invariant node == if i == 0 then 0 else i - 1
        invariant forall j :: 0 <= j < node ==> entries[j].state != DELETED_T
      {
        node := i;
        i := i + 1;
      }
    }

    /** `sac_create_directory`; the name and its NUL must stay within one entry. */
    method CreateDirectory(path: string) returns (code: int)
      requires Valid() && Absolute(path)
      requires path != "/" ==> |BaseName(path)| <= 4094
      modifies entries
      ensures Valid() && (Contents(), code) == Mkdir(old(Contents()), path)
      ensures old(Dense(Contents())) ==> Dense(Contents())
      ensures old(WellFormed(Contents())) ==>
                var dirs, cs := old(Dirs(Contents())), Parse(path);
                && (WellFormed(Contents()) <==> CleanIn(dirs, cs))
                && (CleanIn(dirs, cs) ==> (Dirs(Contents()), code) == DirsMkdir(dirs, cs))
    {
      MkdirKeeps(Contents(), path);
      var existing := FindNode(path);
      if existing != NOT_FOUND {
        return -EEXIST;
      }
      var superPath := new char[|path| + 1];
      var name := new char[|path| + 1];
      var start := SplitPath(path, superPath, name);
      var father: int32 := 0;
      if CString(superPath[..]) != "/" {
        var upper := FindNode(CString(superPath[..]));
        father := ToInt32(upper);
        if father < 0 {
          return -ENOENT;
        }
      }
      var i, node := FindFree();
      if i > NODE_TABLE_SIZE {
        return -EDQUOT;
      }
      var parent := ToUint32(father);
      ghost var before := Contents();
      entries[node] := Entry(DIRECTORY_T, Stored(CString(name[start..]), parent), parent, 0);
      assert Contents() == before[node := entries[node]];
      return 0;
    }
  }
}
