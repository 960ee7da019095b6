/**
 * POSIX path helpers (`os.path.join`, `os.path.basename`) and the directory
 * walk that both the packager and the spinner perform. The walk is an input:
 * one `WalkEntry` per `(root, dirs, files)` triple that `os.walk` yields, in
 * the order it yields them (the sub-directory list is never used).
 */
module Paths {
  import opened Strings
  import opened Wrappers

  datatype WalkEntry = WalkEntry(root: string, files: seq<string>)

  /** `os.path.join(a, b)`: an absolute `b` wins; otherwise a `/` is put between them unless `a` is empty or ends in one. */
  function PathJoin(a: string, b: string): string
  {
    if |b| > 0 && b[0] == '/' then b
    else if |a| == 0 || a[|a| - 1] == '/' then a + b
    else a + "/" + b
  }

  /** A joined path ends with the name joined on, and starts with the folder unless the name is absolute. */
  lemma PathJoinParts(a: string, b: string)
    ensures var r := PathJoin(a, b);
      |b| <= |r| && r[|r| - |b|..] == b &&
      ((|b| == 0 || b[0] != '/') ==> |a| <= |r| && r[..|a|] == a)
  {
  }

  /** `os.path.basename(p)`: the text after the last `/`. */
  function Basename(p: string): (b: string)
    ensures '/' !in b
  {
    if |p| == 0 || p[|p| - 1] == '/' then ""
    else Basename(p[..|p| - 1]) + [p[|p| - 1]]
  }

  /** The basename is the longest suffix without a `/`: a suffix, and either all of `p` or preceded by a `/`. */
  lemma {:induction false} BasenameIsLastSegment(p: string)
    ensures |Basename(p)| <= |p| && p[|p| - |Basename(p)|..] == Basename(p)
    ensures |Basename(p)| < |p| ==> p[|p| - |Basename(p)| - 1] == '/'
    decreases |p|
  {
    if |p| > 0 && p[|p| - 1] != '/' {
      var init := p[..|p| - 1];
      BasenameIsLastSegment(init);
      assert p == init + [p[|p| - 1]];
    }
  }

  /** Whatever ends in `/` (or is empty), followed by a name without `/`, has that name as its basename. */
  lemma {:induction false} BasenameAfterSlash(prefix: string, name: string)
    requires '/' !in name
    requires |prefix| == 0 || prefix[|prefix| - 1] == '/'
    ensures Basename(prefix + name) == name
    decreases |name|
  {
    var p := prefix + name;
    if |name| > 0 {
      var init := name[..|name| - 1];
      assert p[..|p| - 1] == prefix + init;
      BasenameAfterSlash(prefix, init);
      assert name == init + [name[|name| - 1]];
    } else {
      assert p == prefix;
    }
  }

  /** The basename of a file joined under a directory is the file's own name. */
  lemma BasenameOfJoin(dir: string, name: string)
    requires '/' !in name
    ensures Basename(PathJoin(dir, name)) == name
  {
    var prefix := if |dir| == 0 || dir[|dir| - 1] == '/' then dir else dir + "/";
    assert PathJoin(dir, name) == prefix + name;
    BasenameAfterSlash(prefix, name);
  }

  /** `name` is kept by the extension filter: no filter, or `name.endswith(tuple(extensions))`. */
  predicate Keep(name: string, filter: Option<seq<string>>)
  {
    filter.None? || EndsWithAny(name, filter.value)
  }

  /** The paths one directory of the walk contributes, in the order its files are listed. */
  function DirPaths(root: string, files: seq<string>, filter: Option<seq<string>>): (ps: seq<string>)
    ensures |ps| <= |files|
  {
    if |files| == 0 then []
    else
      var name := files[|files| - 1];
      DirPaths(root, files[..|files| - 1], filter) + if Keep(name, filter) then [PathJoin(root, name)] else []
  }

  /** The paths of every kept file of the walk, directory by directory, in walk order. */
  function Walk(listing: seq<WalkEntry>, filter: Option<seq<string>>): seq<string>
  {
    if |listing| == 0 then []
    else
      var e := listing[|listing| - 1];
      Walk(listing[..|listing| - 1], filter) + DirPaths(e.root, e.files, filter)
  }

  /** A walk over two consecutive parts of a listing is the walk over the first, then over the second. */
  lemma {:induction false} WalkAppend(a: seq<WalkEntry>, b: seq<WalkEntry>, filter: Option<seq<string>>)
    ensures Walk(a + b, filter) == Walk(a, filter) + Walk(b, filter)
    decreases |b|
  {
    if |b| == 0 {
      assert a + b == a;
    } else {
      var last := b[|b| - 1];
      assert (a + b)[..|a + b| - 1] == a + b[..|b| - 1];
      WalkAppend(a, b[..|b| - 1], filter);
    }
  }

  /** The files of one directory that the filter keeps are exactly the paths that directory contributes. */
  lemma {:induction false} DirPathsMember(root: string, files: seq<string>, filter: Option<seq<string>>, p: string)
    ensures p in DirPaths(root, files, filter) <==>
      exists j :: 0 <= j < |files| && Keep(files[j], filter) && PathJoin(root, files[j]) == p
    decreases |files|
  {
    if |files| > 0 {
      var init := files[..|files| - 1];
      DirPathsMember(root, init, filter, p);
      if exists j :: 0 <= j < |files| && Keep(files[j], filter) && PathJoin(root, files[j]) == p {
        var j :| 0 <= j < |files| && Keep(files[j], filter) && PathJoin(root, files[j]) == p;
        if j < |init| {
          assert init[j] == files[j];
        }
      }
      if exists j :: 0 <= j < |init| && Keep(init[j], filter) && PathJoin(root, init[j]) == p {
        var j :| 0 <= j < |init| && Keep(init[j], filter) && PathJoin(root, init[j]) == p;
        assert files[j] == init[j];
      }
    }
  }

  /** A path is in the walk exactly when some directory lists a kept file that joins to it. */
  lemma {:induction false} WalkMember(listing: seq<WalkEntry>, filter: Option<seq<string>>, p: string)
    ensures p in Walk(listing, filter) <==>
      exists e, j :: 0 <= e < |listing| && 0 <= j < |listing[e].files| &&
        Keep(listing[e].files[j], filter) && PathJoin(listing[e].root, listing[e].files[j]) == p
    decreases |listing|
  {
    if |listing| > 0 {
      var n := |listing| - 1;
      var init, last := listing[..n], listing[n];
      WalkMember(init, filter, p);
      DirPathsMember(last.root, last.files, filter, p);
      if p in Walk(listing, filter) {
        if p in Walk(init, filter) {
          var e, j :| 0 <= e < |init| && 0 <= j < |init[e].files| &&
            Keep(init[e].files[j], filter) && PathJoin(init[e].root, init[e].files[j]) == p;
          assert listing[e] == init[e];
        } else {
          var j :| 0 <= j < |last.files| && Keep(last.files[j], filter) && PathJoin(last.root, last.files[j]) == p;
          assert 0 <= n < |listing| && 0 <= j < |listing[n].files|;
        }
      } else {
        forall e, j | 0 <= e < |listing| && 0 <= j < |listing[e].files| && Keep(listing[e].files[j], filter)
          ensures PathJoin(listing[e].root, listing[e].files[j]) != p
        {
          if e < n {
            assert init[e] == listing[e];
          }
        }
      }
    }
  }

  /** The filter keeps the file a path names. */
  predicate KeepPath(p: string, filter: Option<seq<string>>)
  {
    Keep(Basename(p), filter)
  }

  /** The elements of `ps` that `keep` accepts, in their order. */
  function Filtered(ps: seq<string>, keep: string -> bool): seq<string>
  {
    if |ps| == 0 then []
    else
      var last := ps[|ps| - 1];
      Filtered(ps[..|ps| - 1], keep) + if keep(last) then [last] else []
  }

  lemma {:induction false} FilteredAppend(a: seq<string>, b: seq<string>, keep: string -> bool)
    ensures Filtered(a + b, keep) == Filtered(a, keep) + Filtered(b, keep)
    decreases |b|
  {
    if |b| == 0 {
      assert a + b == a;
    } else {
      var ab := a + b;
      assert ab[..|ab| - 1] == a + b[..|b| - 1];
      FilteredAppend(a, b[..|b| - 1], keep);
    }
  }

  /** The paths of a list whose file the filter keeps, in their order. */
  function KeepPaths(ps: seq<string>, filter: Option<seq<string>>): seq<string>
  {
    Filtered(ps, p => KeepPath(p, filter))
  }

  /** What `os.walk` lists: plain names, never containing `/`. */
  predicate PlainNames(listing: seq<WalkEntry>)
  {
    forall e, j :: 0 <= e < |listing| && 0 <= j < |listing[e].files| ==> '/' !in listing[e].files[j]
  }

  lemma {:induction false} DirPathsFiltersAll(root: string, files: seq<string>, filter: Option<seq<string>>)
    requires forall j :: 0 <= j < |files| ==> '/' !in files[j]
    ensures DirPaths(root, files, filter) == KeepPaths(DirPaths(root, files, None), filter)
    decreases |files|
  {
    if |files| > 0 {
      var name := files[|files| - 1];
      var all := DirPaths(root, files, None);
      DirPathsFiltersAll(root, files[..|files| - 1], filter);
      BasenameOfJoin(root, name);
      assert all[..|all| - 1] == DirPaths(root, files[..|files| - 1], None);
    }
  }

  /**
   * Filtering by extension keeps the unfiltered walk's order and drops nothing
   * that matches: the filtered walk is the unfiltered one with exactly the
   * non-matching basenames taken out.
   */
  lemma {:induction false} WalkFiltersAll(listing: seq<WalkEntry>, filter: Option<seq<string>>)
    requires PlainNames(listing)
    ensures Walk(listing, filter) == KeepPaths(Walk(listing, None), filter)
    decreases |listing|
  {
    if |listing| > 0 {
      var init := listing[..|listing| - 1];
      var last := listing[|listing| - 1];
      assert PlainNames(init) by {
        forall e, j | 0 <= e < |init| && 0 <= j < |init[e].files| ensures '/' !in init[e].files[j] {
          assert init[e] == listing[e];
        }
      }
      assert forall j :: 0 <= j < |last.files| ==> '/' !in last.files[j];
      WalkFiltersAll(init, filter);
      DirPathsFiltersAll(last.root, last.files, filter);
      FilteredAppend(Walk(init, None), DirPaths(last.root, last.files, None), p => KeepPath(p, filter));
    }
  }

  /** With no filter every listed file is a candidate, so the walk is empty exactly when every directory is. */
  lemma {:induction false} WalkEmpty(listing: seq<WalkEntry>)
    ensures |Walk(listing, None)| == 0 <==> forall e :: 0 <= e < |listing| ==> |listing[e].files| == 0
    decreases |listing|
  {
    if |listing| > 0 {
      var init := listing[..|listing| - 1];
      var last := listing[|listing| - 1];
      WalkEmpty(init);
      DirPathsAll(last.root, last.files);
      if forall e :: 0 <= e < |init| ==> |init[e].files| == 0 {
        assert forall e :: 0 <= e < |init| ==> |listing[e].files| == 0;
      }
    }
  }

  lemma {:induction false} DirPathsAll(root: string, files: seq<string>)
    ensures |DirPaths(root, files, None)| == |files|
    decreases |files|
  {
    if |files| > 0 {
      DirPathsAll(root, files[..|files| - 1]);
    }
  }
}
