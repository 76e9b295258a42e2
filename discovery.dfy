/**
 * `list_all_dirs` and `list_csv_in_dir`: which folders the merger visits and
 * which files in each it reads, both in natural order. The file system is a
 * tree of `Dir` values; `os.walk` becomes `Walk`, `os.listdir` becomes
 * `Listing`.
 */
module Discovery {
  import opened Strings
  import opened Order
  import opened NaturalSort

  /** A directory: its own name, the names of its files and its subdirectories, in listing order. */
  datatype Dir = Dir(name: string, files: seq<string>, subdirs: seq<Dir>)

  /** A directory the walk reached: its path relative to the input folder, and the directory found there. */
  datatype Found = Found(path: seq<string>, dir: Dir)

  /** `d.startswith(".")`. */
  predicate Hidden(name: string) { StartsWith(name, ".") }

  /** `[x for x in s if keep(x)]`. */
  function Keep<T(!new)>(s: seq<T>, keep: T -> bool): (r: seq<T>)
    ensures forall x :: x in r <==> x in s && keep(x)
    ensures |r| <= |s|
  {
    if |s| == 0 then []
    else
      var front := s[..|s| - 1];
      var last := s[|s| - 1];
      assert s == front + [last];
      Keep(front, keep) + (if keep(last) then [last] else [])
  }

  /** Filtering a concatenation filters each part, so the kept elements stay in order. */
  lemma {:induction false} KeepConcat<T(!new)>(a: seq<T>, b: seq<T>, keep: T -> bool)
    ensures Keep(a + b, keep) == Keep(a, keep) + Keep(b, keep)
    decreases |b|
  {
    if |b| == 0 {
      assert a + b == a;
    } else {
      var front := b[..|b| - 1];
      var last := b[|b| - 1];
      assert (a + b)[..|a + b| - 1] == a + front;
      assert (a + b)[|a + b| - 1] == last;
      KeepConcat(a, front, keep);
    }
  }

  lemma KeepMultiset<T(!new)>(s: seq<T>, keep: T -> bool)
    ensures multiset(Keep(s, keep)) <= multiset(s)
    ensures forall x :: x in multiset(s) && keep(x) ==> multiset(Keep(s, keep))[x] == multiset(s)[x]
    decreases |s|
  {
    if |s| > 0 {
      assert s == s[..|s| - 1] + [s[|s| - 1]];
      KeepMultiset(s[..|s| - 1], keep);
    }
  }

  // ---------------------------------------------------------------------------
  // os.walk with hidden subdirectories pruned

  /**
   * `os.walk(top)` top-down, where every step replaces its `subdirs` by the
   * ones whose name does not start with `.`: the folder itself, then the walk
   * of each visible subdirectory in listing order.
   */
  function Walk(d: Dir, path: seq<string>): (r: seq<Found>)
    ensures |r| >= 1 && r[0] == Found(path, d)
    decreases d
  {
    [Found(path, d)] + WalkAll(d.subdirs, path)
  }

  function WalkAll(ds: seq<Dir>, path: seq<string>): seq<Found>
    decreases ds
  {
    if |ds| == 0 then []
    else
      (if Hidden(ds[0].name) then [] else Walk(ds[0], path + [ds[0].name])) + WalkAll(ds[1..], path)
  }

  /** `e` is the directory found by following the names in `p` down from `d`, none of them hidden. */
  ghost predicate Reachable(d: Dir, p: seq<string>, e: Dir)
    decreases |p|
  {
    if |p| == 0 then e == d
    else
      !Hidden(p[0]) &&
      exists i :: 0 <= i < |d.subdirs| && d.subdirs[i].name == p[0] && Reachable(d.subdirs[i], p[1..], e)
  }

  /** The walk from `d` at `path` yields exactly the visible directories below `d`, each once per route. */
  lemma {:induction false} WalkReaches(d: Dir, path: seq<string>, f: Found)
    ensures f in Walk(d, path) <==>
      |f.path| >= |path| && f.path[..|path|] == path && Reachable(d, f.path[|path|..], f.dir)
    decreases d
  {
    var inner := |f.path| >= |path| && f.path[..|path|] == path;
    if inner && |f.path| == |path| {
      assert f.path[|path|..] == [];
      assert f.path == path;
      if f in WalkAll(d.subdirs, path) {
        WalkAllLonger(d.subdirs, path, f);
      }
    } else if inner {
      var q := f.path[|path|..];
      WalkAllReaches(d.subdirs, path, f);
      assert f.path[|path| + 1..] == q[1..];
      assert f.path[|path|] == q[0];
    } else if f in WalkAll(d.subdirs, path) {
      WalkAllLonger(d.subdirs, path, f);
    }
  }

  lemma {:induction false} WalkAllLonger(ds: seq<Dir>, path: seq<string>, f: Found)
    requires f in WalkAll(ds, path)
    ensures |f.path| > |path| && f.path[..|path|] == path
    decreases ds
  {
    if |ds| > 0 {
      var here := if Hidden(ds[0].name) then [] else Walk(ds[0], path + [ds[0].name]);
      if f in here {
        var sub := path + [ds[0].name];
        WalkReaches(ds[0], sub, f);
        assert f.path[..|path|] == f.path[..|sub|][..|path|];
        assert sub[..|path|] == path;
      } else {
        WalkAllLonger(ds[1..], path, f);
      }
    }
  }

  lemma {:induction false} WalkAllReaches(ds: seq<Dir>, path: seq<string>, f: Found)
    requires |f.path| > |path| && f.path[..|path|] == path
    ensures f in WalkAll(ds, path) <==>
      var name := f.path[|path|];
      !Hidden(name) &&
      exists i :: 0 <= i < |ds| && ds[i].name == name && Reachable(ds[i], f.path[|path| + 1..], f.dir)
    decreases ds
  {
    var name := f.path[|path|];
    var below := f.path[|path| + 1..];
    if |ds| > 0 {
      var sub := path + [ds[0].name];
      var here := if Hidden(ds[0].name) then [] else Walk(ds[0], sub);
      assert WalkAll(ds, path) == here + WalkAll(ds[1..], path);
      WalkAllReaches(ds[1..], path, f);
      if !Hidden(ds[0].name) {
        WalkReaches(ds[0], sub, f);
        if ds[0].name == name {
          assert f.path[..|sub|] == sub by {
            assert f.path[..|sub|] == f.path[..|path|] + [name];
          }
          assert f.path[|sub|..] == below;
        } else {
          assert f.path[..|sub|][|path|] == name;
        }
      }
      if exists i :: 0 <= i < |ds| && ds[i].name == name && Reachable(ds[i], below, f.dir) {
        var i :| 0 <= i < |ds| && ds[i].name == name && Reachable(ds[i], below, f.dir);
        if i > 0 {
          assert ds[1..][i - 1] == ds[i];
        }
      }
      if exists i :: 0 <= i < |ds[1..]| && ds[1..][i].name == name && Reachable(ds[1..][i], below, f.dir) {
        var i :| 0 <= i < |ds[1..]| && ds[1..][i].name == name && Reachable(ds[1..][i], below, f.dir);
        assert ds[i + 1] == ds[1..][i];
      }
    }
  }

  /** Every name on the path to a reachable directory is visible. */
  lemma {:induction false} ReachableVisible(d: Dir, p: seq<string>, e: Dir)
    requires Reachable(d, p, e)
    ensures forall k :: 0 <= k < |p| ==> !Hidden(p[k])
    decreases |p|
  {
    if |p| > 0 {
      var i :| 0 <= i < |d.subdirs| && d.subdirs[i].name == p[0] && Reachable(d.subdirs[i], p[1..], e);
      ReachableVisible(d.subdirs[i], p[1..], e);
      assert forall k :: 1 <= k < |p| ==> p[k] == p[1..][k - 1];
    }
  }

  // ---------------------------------------------------------------------------
  // list_all_dirs

  /** `os.path.relpath(path, input_dir)` with `/` as the separator. */
  function RelPath(path: seq<string>): string
  {
    Join(path, '/')
  }

  /** The order of `sort(key=lambda p: natural_key(os.path.relpath(p, input_dir)))`. */
  predicate FoundLe(a: Found, b: Found)
  {
    NameLe(RelPath(a.path), RelPath(b.path))
  }

  predicate NotTop(f: Found) { f.path != [] }

  /** What `list_all_dirs` returns: every walked folder except the input folder, in natural order of relative path. */
  function AllDirs(top: Dir): seq<Found>
  {
    SortBy(Keep(Walk(top, []), NotTop), FoundLe)
  }

  /** `list_all_dirs(input_dir)`: collect every folder the walk yields except the top, then sort. */
  method ListAllDirs(top: Dir) returns (dirs: seq<Found>)
    ensures dirs == AllDirs(top)
  {
    var walk := Walk(top, []);
    dirs := [];
    for i := 0 to |walk|
      invariant dirs == Keep(walk[..i], NotTop)
    {
      assert walk[..i + 1][..i] == walk[..i];
      if walk[i].path != [] {
        dirs := dirs + [walk[i]];
      }
    }
    assert walk[..|walk|] == walk;
    dirs := SortBy(dirs, FoundLe);
  }

  lemma FoundLeTotalPreorder()
    ensures TotalPreorder(FoundLe)
  {
    NameLeTotalPreorder();
  }

  /** A folder is listed exactly when it sits at a non-empty path of visible names below the input folder. */
  lemma AllDirsMembers(top: Dir, f: Found)
    ensures f in AllDirs(top) <==> f.path != [] && Reachable(top, f.path, f.dir)
  {
    assert f in AllDirs(top) <==> f in multiset(AllDirs(top));
    WalkReaches(top, [], f);
    assert f.path[..0] == [] && f.path[0..] == f.path;
  }

  /** No listed path passes through a folder whose name starts with `.`. */
  lemma AllDirsVisible(top: Dir, f: Found)
    requires f in AllDirs(top)
    ensures forall k :: 0 <= k < |f.path| ==> !Hidden(f.path[k])
  {
    AllDirsMembers(top, f);
    ReachableVisible(top, f.path, f.dir);
  }

  /** The list is in natural order of relative path, and holds each non-top walk entry as often as the walk yields it. */
  lemma AllDirsSorted(top: Dir)
    ensures SortedBy(AllDirs(top), FoundLe)
    ensures multiset(AllDirs(top)) == multiset(Walk(top, [])[1..])
  {
    FoundLeTotalPreorder();
    SortSorted(Keep(Walk(top, []), NotTop), FoundLe);
    NonTopIsTail(top);
  }

  lemma NonTopIsTail(top: Dir)
    ensures Keep(Walk(top, []), NotTop) == Walk(top, [])[1..]
  {
    var w := Walk(top, []);
    forall f | f in w[1..] ensures f.path != [] {
      assert f in WalkAll(top.subdirs, []);
      WalkAllLonger(top.subdirs, [], f);
    }
    KeepTail(w, NotTop);
  }

  lemma {:induction false} KeepTail<T(!new)>(s: seq<T>, keep: T -> bool)
    requires |s| >= 1 && !keep(s[0])
    requires forall x :: x in s[1..] ==> keep(x)
    ensures Keep(s, keep) == s[1..]
    decreases |s|
  {
    if |s| > 1 {
      var front := s[..|s| - 1];
      assert front[1..] == s[1..][..|s| - 2];
      assert forall x :: x in front[1..] ==> x in s[1..];
      KeepTail(front, keep);
      assert s[|s| - 1] in s[1..];
      assert s[1..] == front[1..] + [s[|s| - 1]];
    } else {
      assert s[..0] == [];
    }
  }

  /** Folders whose paths tie in natural order keep the order the walk found them in. */
  lemma AllDirsStable(top: Dir, y: Found)
    ensures Ties(AllDirs(top), y, FoundLe) == Ties(Walk(top, [])[1..], y, FoundLe)
  {
    FoundLeTotalPreorder();
    SortStable(Keep(Walk(top, []), NotTop), y, FoundLe);
    NonTopIsTail(top);
  }

  // ---------------------------------------------------------------------------
  // list_csv_in_dir

  function Names(ds: seq<Dir>): (r: seq<string>)
    ensures |r| == |ds| && forall i :: 0 <= i < |ds| ==> r[i] == ds[i].name
  {
    seq(|ds|, i requires 0 <= i < |ds| => ds[i].name)
  }

  /** `os.listdir(d)`: the names of the files and of the subdirectories, hidden ones included. */
  function Listing(d: Dir): seq<string>
  {
    d.files + Names(d.subdirs)
  }

  /** Not an Office lock file (`~$`), and ends in `.csv` in any letter case. */
  predicate IsCsvName(f: string)
  {
    !StartsWith(f, "~$") && EndsWith(Lower(f), ".csv")
  }

  /** What `list_csv_in_dir` returns, as names inside `d`: the CSV entries in natural order. */
  function CsvNames(d: Dir): seq<string>
  {
    SortBy(Keep(Listing(d), IsCsvName), NameLe)
  }

  /** `list_csv_in_dir(dir_path)`: keep the CSV entries of the listing, then sort them by natural key. */
  method ListCsvInDir(d: Dir) returns (csvs: seq<string>)
    ensures csvs == CsvNames(d)
  {
    var entries := Listing(d);
    csvs := [];
    for i := 0 to |entries|
      invariant csvs == Keep(entries[..i], IsCsvName)
    {
      assert entries[..i + 1][..i] == entries[..i];
      var f := entries[i];
      if StartsWith(f, "~$") {
        continue;
      }
      if EndsWith(Lower(f), ".csv") {
        csvs := csvs + [f];
      }
    }
    assert entries[..|entries|] == entries;
    csvs := SortBy(csvs, NameLe);
  }

  /** Sorting keeps exactly the members it was given. */
  lemma SortMembers<T>(s: seq<T>, le: (T, T) -> bool, x: T)
    ensures x in SortBy(s, le) <==> x in s
  {
    assert x in SortBy(s, le) <==> x in multiset(SortBy(s, le));
  }

  lemma NamesMembers(ds: seq<Dir>, f: string)
    ensures f in Names(ds) <==> exists i :: 0 <= i < |ds| && ds[i].name == f
  {
    var names := Names(ds);
    if f in names {
      var i :| 0 <= i < |names| && names[i] == f;
    }
    if exists i :: 0 <= i < |ds| && ds[i].name == f {
      var i :| 0 <= i < |ds| && ds[i].name == f;
      assert names[i] == f;
    }
  }

  /** A name is listed exactly when the folder holds it, as a file or a subdirectory, and it is a CSV name. */
  lemma CsvNamesMembers(d: Dir, f: string)
    ensures f in CsvNames(d) <==> (f in d.files || exists i :: 0 <= i < |d.subdirs| && d.subdirs[i].name == f) && IsCsvName(f)
  {
    SortMembers(Keep(Listing(d), IsCsvName), NameLe, f);
    NamesMembers(d.subdirs, f);
  }

  /** The names are in natural order, each CSV entry kept as often as the listing holds it. */
  lemma CsvNamesSorted(d: Dir)
    ensures SortedBy(CsvNames(d), NameLe)
    ensures multiset(CsvNames(d)) <= multiset(Listing(d))
    ensures forall f :: f in multiset(Listing(d)) && IsCsvName(f) ==> multiset(CsvNames(d))[f] == multiset(Listing(d))[f]
  {
    NameLeTotalPreorder();
    SortSorted(Keep(Listing(d), IsCsvName), NameLe);
    KeepMultiset(Listing(d), IsCsvName);
  }

  /** Names that tie in natural order keep their listing order. */
  lemma CsvNamesStable(d: Dir, y: string)
    ensures Ties(CsvNames(d), y, NameLe) == Ties(Keep(Listing(d), IsCsvName), y, NameLe)
  {
    NameLeTotalPreorder();
    SortStable(Keep(Listing(d), IsCsvName), y, NameLe);
  }

  lemma CsvExample(f: string)
    requires |f| >= 4 && f[0] != '~' && Lower(f)[|f| - 4..] == ".csv"
    ensures IsCsvName(f)
  {
    assert f[..2][0] != '~';
  }

  /** The extension test ignores case; lock files and other extensions are skipped. */
  lemma CsvNameExamples()
    ensures IsCsvName("a.csv") && IsCsvName("a.CSV")
    ensures !IsCsvName("~$a.csv") && !IsCsvName("a.csv.bak") && !IsCsvName("csv")
  {
    assert Lower("a.csv") == "a.csv" == Lower("a.CSV");
    assert "a.csv"[1..] == ".csv";
    CsvExample("a.csv");
    CsvExample("a.CSV");
    assert "~$a.csv"[..2] == "~$";
    var b := Lower("a.csv.bak");
    assert b[|b| - 4..][1] == 'b';
  }
}
