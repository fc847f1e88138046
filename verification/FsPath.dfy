/** Paths as strings: printing a list of names and splitting a path are inverse. */
module FsPath {
  import opened Wrappers

  /** A name that path derivation can address. */
  predicate ValidName(name: string) {
    name != "" && '/' !in name && name != "." && name != ".."
  }

  /** "/a/b/c" for ["a", "b", "c"]. */
  function Print(names: seq<string>): string {
    if names == [] then "" else Print(names[..|names| - 1]) + "/" + names[|names| - 1]
  }

  function ChildPath(parentPath: string, name: string): string {
    parentPath + "/" + name
  }

  /** One more character: a slash opens a segment, any other extends the last one. */
  function Extended(segs: seq<string>, c: char): seq<string>
    requires segs != []
  {
    if c == '/' then segs + [""] else segs[..|segs| - 1] + [segs[|segs| - 1] + [c]]
  }

  /** strings.Split(s, "/"). */
  function Split(s: string): (r: seq<string>)
    ensures r != [] && forall k :: 0 <= k < |r| ==> '/' !in r[k]
  {
    if s == "" then [""] else Extended(Split(s[..|s| - 1]), s[|s| - 1])
  }

  /** Validates an absolute path and returns its segments. */
  function SplitFsPath(path: string): (r: Option<seq<string>>) {
    if path == "" || path[0] != '/' then None
    else if "" in Split(path[1..]) then None
    else Some(Split(path[1..]))
  }

  /** Position of the last '/', -1 if there is none. */
  function LastSlash(path: string): (i: int)
    ensures -1 <= i < |path| && (i >= 0 ==> path[i] == '/')
    ensures forall k :: i < k < |path| ==> path[k] != '/'
  {
    if path == "" then -1 else if path[|path| - 1] == '/' then |path| - 1 else LastSlash(path[..|path| - 1])
  }

  /** The parent part of a node path: "/a/b/c" -> "/a/b", "/a" -> "". */
  function DirOf(path: string): string {
    var i := LastSlash(path);
    if i <= 0 then "" else path[..i]
  }

  lemma PrintSnoc(names: seq<string>, last: string)
    ensures Print(names + [last]) == ChildPath(Print(names), last)
  {
    assert (names + [last])[..|names|] == names;
  }

  // ---- printing undoes splitting ----

  lemma ChildPathSnoc(p: string, name: string, c: char)
    ensures ChildPath(p, name + [c]) == ChildPath(p, name) + [c]
  {
  }

  lemma PrintExtended(segs: seq<string>, c: char)
    requires segs != []
    ensures Print(Extended(segs, c)) == Print(segs) + [c]
  {
    var init, last := segs[..|segs| - 1], segs[|segs| - 1];
    assert segs == init + [last];
    if c == '/' {
      PrintSnoc(segs, "");
    } else {
      PrintSnoc(init, last);
      PrintSnoc(init, last + [c]);
      ChildPathSnoc(Print(init), last, c);
    }
  }

  lemma {:induction false} PrintOfSplit(s: string)
    ensures Print(Split(s)) == "/" + s
  {
    if s == "" {
      PrintSnoc([], "");
      assert [] + [""] == [""];
    } else {
      PrintOfSplit(s[..|s| - 1]);
      PrintExtended(Split(s[..|s| - 1]), s[|s| - 1]);
      assert "/" + s == ("/" + s[..|s| - 1]) + [s[|s| - 1]];
    }
  }

  // ---- splitting undoes printing ----

  /** Splitting past a slash-free tail only extends the last segment. */
  lemma {:induction false} SplitTail(s: string, tail: string)
    requires '/' !in tail
    ensures Split(s + tail) == Split(s)[..|Split(s)| - 1] + [Split(s)[|Split(s)| - 1] + tail]
  {
    if tail == "" {
      assert s + tail == s;
      assert Split(s)[|Split(s)| - 1] + tail == Split(s)[|Split(s)| - 1];
    } else {
      var t, c := tail[..|tail| - 1], tail[|tail| - 1];
      assert '/' !in t && c in tail;
      SplitTail(s, t);
      assert (s + tail)[..|s + tail| - 1] == s + t;
      var head := Split(s + t);
      assert Split(s)[|Split(s)| - 1] + t + [c] == Split(s)[|Split(s)| - 1] + tail;
      assert head[..|head| - 1] == Split(s)[..|Split(s)| - 1];
    }
  }

  lemma SplitSlash(s: string)
    ensures Split(s + "/") == Split(s) + [""]
  {
    assert (s + "/")[..|s|] == s;
  }

  /** One more name splits off as one more segment. */
  lemma SplitGrows(p: string, last: string)
    requires '/' !in last
    ensures Split(p + "/" + last) == Split(p) + [last]
  {
    SplitSlash(p);
    SplitTail(p + "/", last);
    assert (Split(p) + [""])[..|Split(p)|] == Split(p) && "" + last == last;
  }

  lemma {:induction false} SplitOfPrint(names: seq<string>)
    requires names != [] && forall k :: 0 <= k < |names| ==> '/' !in names[k]
    ensures |Print(names)| > 0 && Print(names)[0] == '/' && Split(Print(names)[1..]) == names
  {
    var pre, last := names[..|names| - 1], names[|names| - 1];
    assert names == pre + [last];
    PrintSnoc(pre, last);
    if pre == [] {
      SplitTail("", last);
      assert "" + last == last;
      assert Print(names)[1..] == last;
    } else {
      SplitOfPrint(pre);
      SplitGrows(Print(pre)[1..], last);
      assert Print(names)[1..] == Print(pre)[1..] + "/" + last;
    }
  }

  /** A path that is accepted prints back unchanged; a printed path is accepted and gives
      back its names exactly when they are nonempty and slash-free. */
  lemma PathRoundTrip(path: string, names: seq<string>)
    ensures SplitFsPath(path).Some? ==> Print(SplitFsPath(path).value) == path
    ensures SplitFsPath(path).Some? ==>
              SplitFsPath(path).value != [] && forall n :: n in SplitFsPath(path).value ==> n != "" && '/' !in n
    ensures SplitFsPath(Print(names)) == Some(names) <==> names != [] && forall n :: n in names ==> n != "" && '/' !in n
  {
    if path != "" && path[0] == '/' {
      PrintOfSplit(path[1..]);
      assert path == "/" + path[1..];
    }
    if names != [] && forall n :: n in names ==> n != "" && '/' !in n {
      SplitOfPrint(names);
    }
  }

  lemma DirOfChild(p: string, last: string)
    ensures DirOf(ChildPath(p, last)) == p <==> '/' !in last
  {
    var path := ChildPath(p, last);
    var i := LastSlash(path);
    assert path[|p|] == '/' && path[..|p|] == p;
    assert forall k :: |p| < k < |path| ==> path[k] == last[k - |p| - 1];
    if '/' in last {
      var k :| 0 <= k < |last| && last[k] == '/';
      assert path[|p| + 1 + k] == '/';
    }
  }

  /** The directory of a printed path is the parent's path exactly when the last name
      holds no slash. */
  lemma DirOfPrint(names: seq<string>, last: string)
    ensures DirOf(Print(names + [last])) == Print(names) <==> '/' !in last
  {
    PrintSnoc(names, last);
    DirOfChild(Print(names), last);
  }
}
