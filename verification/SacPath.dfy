/** Path strings as the SAC file system reads them: the cut that `split_path`
    makes, and what that cut means component by component. */
module SacPath {
  import opened CTypes

  /** What FUSE hands over: a NUL-free string that starts with '/'. */
  predicate Absolute(path: string) {
    |path| > 0 && path[0] == '/' && NUL !in path
  }

  /** `strrchr`: index of the last '/', or -1. */
  function LastSlash(s: string): (k: int)
    ensures -1 <= k < |s|
    ensures 0 <= k ==> s[k] == '/'
    ensures forall j :: k < j < |s| ==> s[j] != '/'
  {
    if s == [] then -1
    else if s[|s| - 1] == '/' then |s| - 1
    else LastSlash(s[..|s| - 1])
  }

  predicate EndsWithSlash(s: string) {
    |s| > 0 && s[|s| - 1] == '/'
  }

  /** Drops one trailing slash, if there is one. */
  function Trimmed(s: string): string {
    if EndsWithSlash(s) then s[..|s| - 1] else s
  }

  /** The upper part of a path, with its final slash. */
  function SuperPath(path: string): (r: string)
    requires Absolute(path) && path != "/"
    ensures Absolute(r) && |r| < |path|
    ensures EndsWithSlash(r)
  {
    var t := Trimmed(path);
    assert t[0] == '/';
    t[..LastSlash(t) + 1]
  }

  /** The name below the upper part. */
  function BaseName(path: string): (r: string)
    requires Absolute(path) && path != "/"
    ensures '/' !in r && NUL !in r
  {
    var t := Trimmed(path);
    assert t[0] == '/';
    t[LastSlash(t) + 1..]
  }

  /** The two parts are the path cut behind its last slash, a final one not counted. */
  lemma CutIsExact(path: string)
    requires Absolute(path) && path != "/"
    ensures path == SuperPath(path) + BaseName(path) + if EndsWithSlash(path) then "/" else ""
    ensures SuperPath(path)[|SuperPath(path)| - 1] == '/' && '/' !in BaseName(path)
  {
    var t := Trimmed(path);
    assert t == SuperPath(path) + BaseName(path) && path == t + if EndsWithSlash(path) then "/" else "";
  }

  // ----- Paths as lists of components

  /** A component: any text a path can hold between two slashes, even none. */
  predicate Component(c: string) {
    '/' !in c && NUL !in c
  }

  predicate Components(cs: seq<string>) {
    forall c :: c in cs ==> Component(c)
  }

  /** Splits at every '/', from the left. */
  function Split(s: string): (cs: seq<string>)
    ensures |cs| > 0
  {
    if s == [] then [""]
    else
      var rest := Split(s[1..]);
      if s[0] == '/' then [""] + rest else [[s[0]] + rest[0]] + rest[1..]
  }

  /** The list of components a path denotes: none for the root, else what lies
      between the slashes once the leading one and one trailing one are gone. */
  function Parse(path: string): seq<string>
    requires Absolute(path)
  {
    if path == "/" then [] else Split(Trimmed(path)[1..])
  }

  /** The path of a list of components, with a trailing slash. */
  function Render(cs: seq<string>): (path: string)
    ensures EndsWithSlash(path)
  {
    if cs == [] then "/" else Render(cs[..|cs| - 1]) + cs[|cs| - 1] + "/"
  }

  lemma {:induction false} SplitComponent(s: string)
    requires '/' !in s
    ensures Split(s) == [s]
  {
    if s == [] {
    } else {
      SplitComponent(s[1..]);
      assert [s[0]] + s[1..] == s;
    }
  }

  lemma {:induction false} SplitAppend(s: string, c: string)
    requires '/' !in c
    ensures Split(s + "/" + c) == Split(s) + [c]
  {
    if s == [] {
      SplitComponent(c);
      assert (s + "/" + c)[1..] == c;
    } else {
      SplitAppend(s[1..], c);
      assert (s + "/" + c)[1..] == s[1..] + "/" + c;
    }
  }

  lemma {:induction false} SplitYieldsComponents(s: string)
    requires NUL !in s
    ensures Components(Split(s))
  {
    if s == [] {
    } else {
      SplitYieldsComponents(s[1..]);
      var rest := Split(s[1..]);
      assert rest[0] in rest;
    }
  }

  /** Cutting a path at its last slash takes away exactly its last component. */
  lemma ParseStep(path: string)
    requires Absolute(path) && path != "/"
    ensures Parse(path) == Parse(SuperPath(path)) + [BaseName(path)]
  {
    var t := Trimmed(path);
    var k := LastSlash(t);
    assert t[0] == '/';
    var c := BaseName(path);
    if k == 0 {
      assert t[1..] == c;
      SplitComponent(c);
    } else {
      var super := SuperPath(path);
      assert super == t[..k] + "/";
      assert Trimmed(super)[1..] == t[1..k];
      assert t[1..] == t[1..k] + "/" + c;
      SplitAppend(t[1..k], c);
    }
  }

  lemma ParseYieldsComponents(path: string)
    requires Absolute(path)
    ensures Components(Parse(path))
  {
    if path != "/" {
      SplitYieldsComponents(Trimmed(path)[1..]);
    }
  }

  /** `split_path` undoes the appending of a component and a slash. */
  lemma CutAppended(upper: string, c: string)
    requires Absolute(upper) && EndsWithSlash(upper) && Component(c)
    ensures Absolute(upper + c + "/") && upper + c + "/" != "/"
    ensures SuperPath(upper + c + "/") == upper
    ensures BaseName(upper + c + "/") == c
  {
    var path := upper + c + "/";
    var t := Trimmed(path);
    assert t == upper + c;
    assert t[|upper| - 1] == '/' && forall j :: |upper| <= j < |t| ==> t[j] != '/';
  }

  /** Every list of components is the parse of its own path, so paths and lists
      of components are interchangeable. */
  lemma {:induction false} ParseRender(cs: seq<string>)
    requires Components(cs)
    ensures Absolute(Render(cs))
    ensures Parse(Render(cs)) == cs
  {
    if cs == [] {
    } else {
      var upper, c := cs[..|cs| - 1], cs[|cs| - 1];
      assert c in cs && forall d :: d in upper ==> d in cs;
      assert cs == upper + [c];
      ParseRender(upper);
      var path := Render(upper);
      assert Render(cs) == path + c + "/";
      CutAppended(path, c);
      ParseStep(path + c + "/");
    }
  }

  /** A trailing slash is idle after a name, and adds an empty name after a slash. */
  lemma ParseTrailingSlash(path: string)
    requires Absolute(path)
    ensures Parse(path + "/") == if EndsWithSlash(path) then Parse(path) + [""] else Parse(path)
  {
    assert Trimmed(path + "/") == path;
    if path == "/" {
      assert Split("") == [""];
    } else if EndsWithSlash(path) {
      SplitAppend(Trimmed(path)[1..], "");
      assert path[1..] == Trimmed(path)[1..] + "/" + "";
    }
  }
}
