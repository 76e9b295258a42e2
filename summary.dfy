/**
 * `build_summary`: one row per (mouse, view, position), filled from the CSV
 * files of every folder in natural order. The ordered dictionary it builds is
 * `SummaryTable`, keys in insertion order plus a map from key to row; the CSV
 * reader `first_float_in_first_column` is the parameter `read`.
 */
module Summary {
  import opened Options
  import opened Strings
  import opened NameGrammar
  import opened Discovery

  /** `(mouse, view, pos)`, the dictionary key. */
  datatype Key = Key(mouse: string, view: string, pos: string)

  /** One row: `mouse ID`, `view-id`, `position`, `Ribeyes/μm`, `microglia/μm`, `engulfment index`. */
  datatype Row = Row(mouse: string, view: string, position: string,
                     ribeyes: Option<real>, microglia: Option<real>, engulfment: Option<real>)

  /** The dictionary as a value: keys in insertion order and the row of each. */
  datatype Table = Table(order: seq<Key>, rows: map<Key, Row>)

  /** Where one CSV file goes: its key and whether it measures ribeyes or microglia. */
  datatype Target = Target(key: Key, kind: string)

  /** What one CSV file writes: the key, the kind and the number read from it. */
  datatype Reading = Reading(key: Key, kind: string, value: Option<real>)

  // ---------------------------------------------------------------------------
  // Deciding what a file is

  /**
   * `if not kind:` with the words of the lower-cased file name as the fallback;
   * `ribeyes` is tested first, a file naming neither is skipped.
   */
  function Classify(key: Key, kind: Option<string>, file: string): Option<Target>
  {
    if kind.Some? && kind.value != "" then Some(Target(key, kind.value))
    else
      var lower := Lower(file);
      if Contains(lower, "ribeyes") then Some(Target(key, "ribeyes"))
      else if Contains(lower, "microglia") then Some(Target(key, "microglia"))
      else None
  }

  /**
   * The body of the inner loop of `build_summary` up to the read: a folder
   * name that parses fixes mouse, view and position and the file name only
   * supplies the kind; otherwise the file name must parse and supplies all four.
   */
  function Resolve(folder: Option<Parsed>, file: string): Option<Target>
  {
    var parsedCsv := ParseFromName(file);
    if folder.Some? then
      var f := folder.value;
      Classify(Key(f.mouse, f.view, f.pos), if parsedCsv.Some? then Some(parsedCsv.value.kind) else None, file)
    else if parsedCsv.None? then None
    else
      var c := parsedCsv.value;
      Classify(Key(c.mouse, c.view, c.pos), Some(c.kind), file)
  }

  /** A parsed kind is never empty, so it is used as it is. */
  lemma ParsedKind(file: string)
    requires ParseFromName(file).Some?
    ensures ParseFromName(file).value.kind == "ribeyes" || ParseFromName(file).value.kind == "microglia"
  {
    ParseFromNameSpec(file);
  }

  /** Every file that is not skipped is filed as ribeyes or microglia. */
  lemma ResolveKinds(folder: Option<Parsed>, file: string)
    requires Resolve(folder, file).Some?
    ensures Resolve(folder, file).value.kind == "ribeyes" || Resolve(folder, file).value.kind == "microglia"
  {
    if ParseFromName(file).Some? {
      ParsedKind(file);
    }
  }

  /** When the folder name parses, the key is the folder's, and a file name that parses gives the kind. */
  lemma FolderDecides(folder: Parsed, file: string)
    ensures Resolve(Some(folder), file).Some? <==>
      ParseFromName(file).Some? || Contains(Lower(file), "ribeyes") || Contains(Lower(file), "microglia")
    ensures Resolve(Some(folder), file).Some? ==> Resolve(Some(folder), file).value.key == Key(folder.mouse, folder.view, folder.pos)
    ensures ParseFromName(file).Some? ==> Resolve(Some(folder), file).value.kind == ParseFromName(file).value.kind
  {
    if ParseFromName(file).Some? {
      ParsedKind(file);
    }
  }

  /** When the folder name does not parse, a file is used exactly when its own name parses, and everything comes from it. */
  lemma FileDecides(file: string)
    ensures Resolve(None, file).Some? <==> ParseFromName(file).Some?
    ensures Resolve(None, file).Some? ==>
      var c := ParseFromName(file).value;
      Resolve(None, file).value == Target(Key(c.mouse, c.view, c.pos), c.kind)
  {
    if ParseFromName(file).Some? {
      ParsedKind(file);
    }
  }

  /** Falling back on the file name: `ribeyes` wins over `microglia`, and a name with neither is skipped. */
  lemma FallbackByWords(folder: Parsed, file: string)
    requires ParseFromName(file).None?
    ensures Contains(Lower(file), "ribeyes") ==> Resolve(Some(folder), file).value.kind == "ribeyes"
    ensures !Contains(Lower(file), "ribeyes") && Contains(Lower(file), "microglia") ==>
      Resolve(Some(folder), file).value.kind == "microglia"
    ensures !Contains(Lower(file), "ribeyes") && !Contains(Lower(file), "microglia") ==>
      Resolve(Some(folder), file).None?
  {
  }

  /** A word with a letter the text lacks does not occur in it. */
  lemma MissingLetter(s: string, sub: string, c: char)
    requires c in sub && c !in s
    ensures !Contains(s, sub)
  {
    var j :| 0 <= j < |sub| && sub[j] == c;
    forall i | 0 <= i <= |s| - |sub| ensures !OccursAt(s, sub, i) {
      assert s[i..i + |sub|][j] == s[i + j] != c;
    }
  }

  /** `unrelated_0007(microglia-gcl)_Statistics.csv`, in two pieces. */
  const StatsHead := "unrelated_0007("
  const StatsTail := "microglia-gcl)_Statistics.csv"
  const StatsFile := StatsHead + StatsTail

  lemma StatsLower() ensures Lower(StatsHead) == "unrelated_0007(" && Lower(StatsTail) == "microglia-gcl)_statistics.csv" { }

  lemma StatsNoY() ensures 'y' !in "unrelated_0007(" && 'y' !in "microglia-gcl)_statistics.csv" { }

  lemma StatsOccurs() ensures OccursAt("microglia-gcl)_statistics.csv", "microglia", 0) { }

  /** The file name does not parse, mentions microglia and not ribeyes. */
  lemma StatsFileWords()
    ensures ParseFromName(StatsFile).None?
    ensures !Contains(Lower(StatsFile), "ribeyes") && Contains(Lower(StatsFile), "microglia")
  {
    assert StatsFile[0] == StatsHead[0] == 'u';
    LowerConcat(StatsHead, StatsTail);
    StatsLower();
    StatsNoY();
    MissingLetter(Lower(StatsHead) + Lower(StatsTail), "ribeyes", 'y');
    StatsOccurs();
    OccursShift(Lower(StatsHead), Lower(StatsTail), "microglia", 0);
  }

  /**
   * A folder name without the `_` after `)` does not parse, so a file in it
   * whose own name does not parse is skipped; with the `_` the folder fixes the
   * key `(p5, /, gcl)` and the file's words make it a microglia value.
   */
  lemma FolderPrecedenceExample()
    ensures Resolve(ParseFromName("p5-foo(ribeyes-gcl)"), StatsFile).None?
    ensures Resolve(ParseFromName("p5-foo(ribeyes-gcl)_"), StatsFile) == Some(Target(Key("p5", "/", "gcl"), "microglia"))
  {
    NoUnderscoreExample();
    FolderWithUnderscoreExample();
    StatsFileWords();
  }

  // ---------------------------------------------------------------------------
  // The dictionary

  function NewRow(k: Key): Row
  {
    Row(k.mouse, k.view, k.pos, None, None, None)
  }

  /** `summary[key]["Ribeyes/μm"] = val` or `summary[key]["microglia/μm"] = val`. */
  function SetCell(row: Row, kind: string, v: Option<real>): Row
  {
    if kind == "ribeyes" then row.(ribeyes := v)
    else if kind == "microglia" then row.(microglia := v)
    else row
  }

  /** The cell a kind is written to. */
  function Cell(row: Row, kind: string): Option<real>
  {
    if kind == "ribeyes" then row.ribeyes else row.microglia
  }

  /** Writing one reading: a new key gets an empty row at the end, then the kind's cell is set. */
  function Put(t: Table, r: Reading): Table
  {
    var row := if r.key in t.rows then t.rows[r.key] else NewRow(r.key);
    var order := if r.key in t.rows then t.order else t.order + [r.key];
    Table(order, t.rows[r.key := SetCell(row, r.kind, r.value)])
  }

  /** The dictionary after the readings, in order. */
  function Fold(rs: seq<Reading>): Table
  {
    if |rs| == 0 then Table([], map[])
    else Put(Fold(rs[..|rs| - 1]), rs[|rs| - 1])
  }

  /** The row of `k` repeats the key and has no engulfment index. */
  predicate Fits(k: Key, row: Row)
  {
    row.mouse == k.mouse && row.view == k.view && row.position == k.pos && row.engulfment.None?
  }

  /** Each key once in the order, the order and the map agree, and each row fits its key. */
  ghost predicate TableOk(t: Table)
  {
    && (forall i, j :: 0 <= i < j < |t.order| ==> t.order[i] != t.order[j])
    && (forall k :: k in t.rows <==> k in t.order)
    && (forall k :: k in t.rows ==> Fits(k, t.rows[k]))
  }

  lemma PutOk(t: Table, r: Reading)
    requires TableOk(t)
    ensures TableOk(Put(t, r))
  {
    var u := Put(t, r);
    var row := if r.key in t.rows then t.rows[r.key] else NewRow(r.key);
    assert Fits(r.key, row) && Fits(r.key, SetCell(row, r.kind, r.value));
    if r.key !in t.rows {
      assert u.order == t.order + [r.key] && r.key !in t.order;
      forall i, j | 0 <= i < j < |u.order| ensures u.order[i] != u.order[j] {
        assert u.order[i] == t.order[i];
      }
    }
  }

  /** A write touches only its own key's row and that row's cell for its kind; existing keys keep their places. */
  lemma PutFrame(t: Table, r: Reading, k: Key, kind: string)
    requires TableOk(t)
    ensures k != r.key ==> (k in Put(t, r).rows <==> k in t.rows)
    ensures k != r.key && k in t.rows ==> Put(t, r).rows[k] == t.rows[k]
    ensures k in t.rows && (kind == "ribeyes" || kind == "microglia") && kind != r.kind ==> Cell(Put(t, r).rows[k], kind) == Cell(t.rows[k], kind)
    ensures |t.order| <= |Put(t, r).order| && Put(t, r).order[..|t.order|] == t.order
    ensures r.key in t.rows ==> Put(t, r).order == t.order
  {
    var u := Put(t, r);
    if r.key !in t.rows {
      assert u.order[..|t.order|] == t.order;
    }
  }

  /** `OrderedDict` semantics: the table stays well formed whatever is read. */
  lemma {:induction false} FoldOk(rs: seq<Reading>)
    ensures TableOk(Fold(rs))
    decreases |rs|
  {
    if |rs| > 0 {
      FoldOk(rs[..|rs| - 1]);
      PutOk(Fold(rs[..|rs| - 1]), rs[|rs| - 1]);
    }
  }

  function Keys(rs: seq<Reading>): (ks: seq<Key>)
    ensures |ks| == |rs| && forall i :: 0 <= i < |rs| ==> ks[i] == rs[i].key
  {
    seq(|rs|, i requires 0 <= i < |rs| => rs[i].key)
  }

  /** A key has a row exactly when some reading carries it. */
  lemma {:induction false} FoldKeys(rs: seq<Reading>, k: Key)
    ensures k in Fold(rs).rows <==> k in Keys(rs)
    decreases |rs|
  {
    if |rs| > 0 {
      var front := rs[..|rs| - 1];
      FoldKeys(front, k);
      assert Keys(rs) == Keys(front) + [rs[|rs| - 1].key];
    }
  }

  /** Where `x` first occurs in `s`. */
  function FirstIndex<T(==)>(s: seq<T>, x: T): (i: nat)
    requires x in s
    ensures i < |s| && s[i] == x && x !in s[..i]
  {
    if s[0] == x then 0
    else
      assert s == [s[0]] + s[1..];
      var j := FirstIndex(s[1..], x);
      assert s[..j + 1] == [s[0]] + s[1..][..j];
      j + 1
  }

  lemma FirstIndexAppend<T>(s: seq<T>, y: T, x: T)
    requires x in s + [y]
    ensures x in s ==> FirstIndex(s + [y], x) == FirstIndex(s, x)
    ensures x !in s ==> FirstIndex(s + [y], x) == |s|
  {
    var i := FirstIndex(s + [y], x);
    assert forall k :: 0 <= k < i ==> (s + [y])[k] == (s + [y])[..i][k];
    if x in s {
      var j := FirstIndex(s, x);
      assert forall k :: 0 <= k < j ==> s[k] == s[..j][k];
      assert (s + [y])[j] == x;
      assert i < |s| ==> s[i] == x;
    }
  }

  /** Every element of `o` occurs in `ks`, and `o` lists them in the order of their first occurrence there. */
  predicate FirstMentionOrder<T(==)>(o: seq<T>, ks: seq<T>)
  {
    && (forall x :: x in o ==> x in ks)
    && forall i, j :: 0 <= i < j < |o| ==> o[i] in ks && o[j] in ks && FirstIndex(ks, o[i]) < FirstIndex(ks, o[j])
  }

  /** Mentions after the last one of `o` change nothing. */
  lemma OrderExtend<T>(o: seq<T>, ks: seq<T>, y: T)
    requires FirstMentionOrder(o, ks)
    ensures FirstMentionOrder(o, ks + [y])
  {
    forall x | x in o ensures x in ks + [y] && FirstIndex(ks + [y], x) == FirstIndex(ks, x) {
      FirstIndexAppend(ks, y, x);
    }
  }

  /** A first mention goes to the end of the order. */
  lemma OrderAppend<T>(o: seq<T>, ks: seq<T>, y: T)
    requires FirstMentionOrder(o, ks) && y !in ks
    ensures FirstMentionOrder(o + [y], ks + [y])
  {
    var ks' := ks + [y];
    OrderExtend(o, ks, y);
    FirstIndexAppend(ks, y, y);
    var o' := o + [y];
    assert forall x :: x in o' ==> x in o || x == y;
    forall i, j | 0 <= i < j < |o'| ensures o'[i] in ks' && o'[j] in ks' && FirstIndex(ks', o'[i]) < FirstIndex(ks', o'[j]) {
      assert o'[i] == o[i];
      if j < |o| {
        assert o'[j] == o[j];
      }
    }
  }

  /** Keys appear in the order in which the readings first mention them. */
  lemma {:induction false} FoldOrder(rs: seq<Reading>)
    ensures FirstMentionOrder(Fold(rs).order, Keys(rs))
    decreases |rs|
  {
    if |rs| > 0 {
      var front, r := rs[..|rs| - 1], rs[|rs| - 1];
      var t := Fold(front);
      assert Keys(rs) == Keys(front) + [r.key];
      FoldOrder(front);
      FoldOk(front);
      FoldKeys(front, r.key);
      if r.key in t.rows {
        OrderExtend(t.order, Keys(front), r.key);
      } else {
        OrderAppend(t.order, Keys(front), r.key);
      }
    }
  }

  predicate Matches(r: Reading, k: Key, kind: string)
  {
    r.key == k && r.kind == kind
  }

  /** `rs[i]` is the last reading for this key and kind. */
  predicate LatestFor(rs: seq<Reading>, i: int, k: Key, kind: string)
  {
    0 <= i < |rs| && Matches(rs[i], k, kind) && forall j :: i < j < |rs| ==> !Matches(rs[j], k, kind)
  }

  /** The last file read for a key and kind decides its cell. */
  lemma {:induction false} FoldLatest(rs: seq<Reading>, i: int, k: Key, kind: string)
    requires kind == "ribeyes" || kind == "microglia"
    requires LatestFor(rs, i, k, kind)
    ensures k in Fold(rs).rows && Cell(Fold(rs).rows[k], kind) == rs[i].value
    decreases |rs|
  {
    var front, r := rs[..|rs| - 1], rs[|rs| - 1];
    if i < |rs| - 1 {
      assert LatestFor(front, i, k, kind) by {
        forall j | i < j < |front| ensures !Matches(front[j], k, kind) {
          assert front[j] == rs[j];
        }
      }
      FoldLatest(front, i, k, kind);
      assert !Matches(r, k, kind);
    }
  }

  /** A key no file of that kind was read for keeps `None` in that cell. */
  lemma {:induction false} FoldUnwritten(rs: seq<Reading>, k: Key, kind: string)
    requires kind == "ribeyes" || kind == "microglia"
    requires k in Fold(rs).rows
    requires forall j :: 0 <= j < |rs| ==> !Matches(rs[j], k, kind)
    ensures Cell(Fold(rs).rows[k], kind) == None
    decreases |rs|
  {
    var front, r := rs[..|rs| - 1], rs[|rs| - 1];
    assert !Matches(r, k, kind);
    if k in Fold(front).rows {
      FoldUnwritten(front, k, kind);
    }
  }

  /** A fold with both kinds for one key fills one row; the order is that of first mention. */
  lemma FoldExample(a: Key, b: Key)
    requires a != b
    ensures var t := Fold([Reading(a, "ribeyes", Some(1.5)), Reading(b, "microglia", None), Reading(a, "microglia", Some(2.0))]);
      && t.order == [a, b] && a in t.rows && b in t.rows
      && t.rows[a] == Row(a.mouse, a.view, a.pos, Some(1.5), Some(2.0), None)
      && t.rows[b] == Row(b.mouse, b.view, b.pos, None, None, None)
  {
    var r0, r1, r2 := Reading(a, "ribeyes", Some(1.5)), Reading(b, "microglia", None), Reading(a, "microglia", Some(2.0));
    var rs := [r0, r1, r2];
    assert rs[..2] == [r0, r1] && [r0, r1][..1] == [r0] && [r0][..0] == [];
    var t1 := Put(Table([], map[]), r0);
    assert Fold([r0]) == t1;
    assert t1.order == [a] && t1.rows[a] == Row(a.mouse, a.view, a.pos, Some(1.5), None, None);
    var t2 := Put(t1, r1);
    assert Fold([r0, r1]) == t2;
    assert t2.order == [a, b] && t2.rows[a] == t1.rows[a];
    assert t2.rows[b] == Row(b.mouse, b.view, b.pos, None, None, None);
  }

  // ---------------------------------------------------------------------------
  // The readings of a whole run

  function Basename(path: seq<string>): string
  {
    if |path| == 0 then "" else path[|path| - 1]
  }

  /**
   * What the file `name` in folder `f` writes, if anything: the file is
   * resolved against the parse of the folder's own name, and its value read.
   */
  function FileReading(read: seq<string> -> Option<real>, f: Found, name: string): Option<Reading>
  {
    match Resolve(ParseFromName(Basename(f.path)), name)
    case None => None
    case Some(t) => Some(Reading(t.key, t.kind, read(f.path + [name])))
  }

  /** The readings of the files `names` in folder `f`, in order; a skipped file gives none. */
  function FolderReadings(f: Found, names: seq<string>, reading: (Found, string) -> Option<Reading>): seq<Reading>
  {
    if |names| == 0 then []
    else
      FolderReadings(f, names[..|names| - 1], reading) +
        match reading(f, names[|names| - 1])
        case None => []
        case Some(r) => [r]
  }

  /** The readings of every folder in turn, `out(f)` being those of folder `f`. */
  function Readings(dirs: seq<Found>, out: Found -> seq<Reading>): seq<Reading>
  {
    if |dirs| == 0 then [] else Readings(dirs[..|dirs| - 1], out) + out(dirs[|dirs| - 1])
  }

  function ReadingOf(read: seq<string> -> Option<real>): (Found, string) -> Option<Reading>
  {
    (f, name) => FileReading(read, f, name)
  }

  /** The readings of one folder: its CSV files in natural order. */
  function FolderOf(read: seq<string> -> Option<real>): Found -> seq<Reading>
  {
    (f: Found) => FolderReadings(f, CsvNames(f.dir), ReadingOf(read))
  }

  /** What `build_summary(input_dir)` returns, as a value. */
  function Summarize(top: Dir, read: seq<string> -> Option<real>): Table
  {
    Fold(Readings(AllDirs(top), FolderOf(read)))
  }

  lemma FoldAppend(a: seq<Reading>, r: Reading)
    ensures Fold(a + [r]) == Put(Fold(a), r)
  {
    assert (a + [r])[..|a|] == a;
  }

  /** One more file of the folder: its reading, if any, is written next. */
  lemma FolderStep(done: seq<Reading>, d: Found, names: seq<string>, j: nat, reading: (Found, string) -> Option<Reading>)
    requires j < |names|
    ensures var before := done + FolderReadings(d, names[..j], reading);
      Fold(done + FolderReadings(d, names[..j + 1], reading)) ==
        match reading(d, names[j])
        case None => Fold(before)
        case Some(r) => Put(Fold(before), r)
  {
    var before := done + FolderReadings(d, names[..j], reading);
    assert names[..j + 1][..j] == names[..j] && names[..j + 1][j] == names[j];
    match reading(d, names[j])
    case None =>
      assert done + FolderReadings(d, names[..j + 1], reading) == before;
    case Some(r) =>
      assert done + FolderReadings(d, names[..j + 1], reading) == before + [r];
      FoldAppend(before, r);
  }

  /** One more folder: its readings follow those of the folders before it. */
  lemma DirsStep(dirs: seq<Found>, i: nat, out: Found -> seq<Reading>)
    requires i < |dirs|
    ensures Readings(dirs[..i + 1], out) == Readings(dirs[..i], out) + out(dirs[i])
  {
    assert dirs[..i + 1][..i] == dirs[..i] && dirs[..i + 1][i] == dirs[i];
  }

  /** The reading of a file is what resolving it against its folder's parse and reading it give. */
  lemma ReadingIs(read: seq<string> -> Option<real>, d: Found, name: string, folder: Option<Parsed>)
    requires folder == ParseFromName(Basename(d.path))
    ensures ReadingOf(read)(d, name) ==
      match Resolve(folder, name)
      case None => None
      case Some(t) => Some(Reading(t.key, t.kind, read(d.path + [name])))
  {
  }

  lemma {:induction false} FolderReadingsMembers(f: Found, names: seq<string>, reading: (Found, string) -> Option<Reading>, r: Reading)
    ensures r in FolderReadings(f, names, reading) <==> exists name :: name in names && reading(f, name) == Some(r)
    decreases |names|
  {
    if |names| > 0 {
      var front, name := names[..|names| - 1], names[|names| - 1];
      FolderReadingsMembers(f, front, reading, r);
      assert names == front + [name];
      if exists n :: n in names && reading(f, n) == Some(r) {
        var n :| n in names && reading(f, n) == Some(r);
        if n != name {
          assert n in front;
        }
      }
    }
  }

  /** Some CSV file of folder `f` produces reading `r`. */
  ghost predicate Produces(f: Found, reading: (Found, string) -> Option<Reading>, r: Reading)
  {
    exists name :: name in CsvNames(f.dir) && reading(f, name) == Some(r)
  }

  lemma FolderProduces(read: seq<string> -> Option<real>, f: Found, r: Reading)
    ensures r in FolderOf(read)(f) <==> Produces(f, ReadingOf(read), r)
  {
    FolderReadingsMembers(f, CsvNames(f.dir), ReadingOf(read), r);
  }

  /** A folder without CSV files adds no reading, so it creates no row. */
  lemma EmptyFolder(dirs: seq<Found>, f: Found, read: seq<string> -> Option<real>)
    requires CsvNames(f.dir) == []
    ensures FolderOf(read)(f) == []
    ensures Readings(dirs + [f], FolderOf(read)) == Readings(dirs, FolderOf(read))
  {
    assert (dirs + [f])[..|dirs|] == dirs;
  }

  /** A reading is in the run exactly when one of the folders yields it. */
  lemma ReadingsMembers(dirs: seq<Found>, out: Found -> seq<Reading>, r: Reading)
    ensures r in Readings(dirs, out) <==> exists i :: 0 <= i < |dirs| && r in out(dirs[i])
  {
    if r in Readings(dirs, out) {
      var i := ReadingsSource(dirs, out, r);
    }
    forall i | 0 <= i < |dirs| && r in out(dirs[i]) ensures r in Readings(dirs, out) {
      ReadingsInclude(dirs, out, i);
    }
  }

  lemma {:induction false} ReadingsSource(dirs: seq<Found>, out: Found -> seq<Reading>, r: Reading) returns (i: nat)
    requires r in Readings(dirs, out)
    ensures i < |dirs| && r in out(dirs[i])
    decreases |dirs|
  {
    var front := dirs[..|dirs| - 1];
    if r in Readings(front, out) {
      i := ReadingsSource(front, out, r);
      assert dirs[i] == front[i];
    } else {
      i := |dirs| - 1;
    }
  }

  lemma {:induction false} ReadingsInclude(dirs: seq<Found>, out: Found -> seq<Reading>, i: nat)
    requires i < |dirs|
    ensures forall x :: x in out(dirs[i]) ==> x in Readings(dirs, out)
    decreases |dirs|
  {
    var front := dirs[..|dirs| - 1];
    if i < |front| {
      assert front[i] == dirs[i];
      ReadingsInclude(front, out, i);
    }
  }

  /** The file `name` in folder `f` resolves to key `k`. */
  predicate ResolvesTo(f: Found, name: string, k: Key)
  {
    var t := Resolve(ParseFromName(Basename(f.path)), name);
    t.Some? && t.value.key == k
  }

  /** Some CSV file of folder `f` resolves to key `k`. */
  ghost predicate FolderHasKey(f: Found, k: Key)
  {
    exists name :: name in CsvNames(f.dir) && ResolvesTo(f, name, k)
  }

  lemma ReadingKey(read: seq<string> -> Option<real>, f: Found, name: string, k: Key)
    ensures ResolvesTo(f, name, k) <==> ReadingOf(read)(f, name).Some? && ReadingOf(read)(f, name).value.key == k
  {
  }

  lemma FolderKey(read: seq<string> -> Option<real>, f: Found, k: Key)
    ensures FolderHasKey(f, k) <==> exists r :: Produces(f, ReadingOf(read), r) && r.key == k
  {
    var reading := ReadingOf(read);
    if FolderHasKey(f, k) {
      var name :| name in CsvNames(f.dir) && ResolvesTo(f, name, k);
      ReadingKey(read, f, name, k);
      var r := reading(f, name).value;
      assert Produces(f, reading, r);
    }
    if exists r :: Produces(f, reading, r) && r.key == k {
      var r :| Produces(f, reading, r) && r.key == k;
      var name :| name in CsvNames(f.dir) && reading(f, name) == Some(r);
      ReadingKey(read, f, name, k);
    }
  }

  /** The summary has a row for a key exactly when some CSV file of some listed folder resolves to it. */
  lemma SummaryKeys(top: Dir, read: seq<string> -> Option<real>, k: Key)
    ensures k in Summarize(top, read).rows <==> exists i :: 0 <= i < |AllDirs(top)| && FolderHasKey(AllDirs(top)[i], k)
  {
    var dirs := AllDirs(top);
    var reading, out := ReadingOf(read), FolderOf(read);
    var rs := Readings(dirs, out);
    FoldKeys(rs, k);
    if k in Keys(rs) {
      var j :| 0 <= j < |rs| && rs[j].key == k;
      ReadingsMembers(dirs, out, rs[j]);
      var i :| 0 <= i < |dirs| && rs[j] in out(dirs[i]);
      FolderProduces(read, dirs[i], rs[j]);
      FolderKey(read, dirs[i], k);
    }
    if exists i :: 0 <= i < |dirs| && FolderHasKey(dirs[i], k) {
      var i :| 0 <= i < |dirs| && FolderHasKey(dirs[i], k);
      FolderKey(read, dirs[i], k);
      var r :| Produces(dirs[i], reading, r) && r.key == k;
      FolderProduces(read, dirs[i], r);
      ReadingsMembers(dirs, out, r);
      var j :| 0 <= j < |rs| && rs[j] == r;
      assert Keys(rs)[j] == k;
    }
  }

  /** Each key is listed once, and its row repeats the key and has no engulfment index. */
  lemma SummaryWellFormed(top: Dir, read: seq<string> -> Option<real>)
    ensures var t := Summarize(top, read);
      && (forall i, j :: 0 <= i < j < |t.order| ==> t.order[i] != t.order[j])
      && (forall k :: k in t.rows <==> k in t.order)
      && (forall k :: k in t.rows ==> Fits(k, t.rows[k]))
  {
    FoldOk(Readings(AllDirs(top), FolderOf(read)));
  }

  // ---------------------------------------------------------------------------
  // The ordered dictionary, updated in place

  class SummaryTable {
    var order: seq<Key>
    var rows: map<Key, Row>

    function Contents(): Table
      reads this
    {
      Table(order, rows)
    }

    ghost predicate Valid()
      reads this
    {
      TableOk(Contents())
    }

    /** `OrderedDict()`. */
    constructor ()
      ensures Contents() == Table([], map[]) && Valid()
    {
      order := [];
      rows := map[];
    }

    /** Creates the key's row at the end if it is new, then fills the kind's cell. */
    method Record(r: Reading)
      requires Valid()
      modifies this
      ensures Valid()
      ensures Contents() == Put(old(Contents()), r)
    {
      ghost var t := Contents();
      PutOk(t, r);
      if r.key !in rows {
        rows := rows[r.key := NewRow(r.key)];
        order := order + [r.key];
      }
      assert rows[r.key] == if r.key in t.rows then t.rows[r.key] else NewRow(r.key);
      if r.kind == "ribeyes" {
        rows := rows[r.key := rows[r.key].(ribeyes := r.value)];
      } else if r.kind == "microglia" {
        rows := rows[r.key := rows[r.key].(microglia := r.value)];
      }
      assert rows == Put(t, r).rows;
    }
  }

  /**
   * The inner loop of `build_summary` for folder `d`, whose CSV files are
   * `csvs` and whose own name parses to `folderParsed`: each file is resolved
   * and, unless skipped, its value is recorded.
   */
  method RecordFolder(summary: SummaryTable, d: Found, folderParsed: Option<Parsed>, csvs: seq<string>,
                      read: seq<string> -> Option<real>, ghost done: seq<Reading>)
    requires summary.Valid() && summary.Contents() == Fold(done)
    requires folderParsed == ParseFromName(Basename(d.path))
    modifies summary
    ensures summary.Valid() && summary.Contents() == Fold(done + FolderReadings(d, csvs, ReadingOf(read)))
  {
    ghost var reading := ReadingOf(read);
    assert done + FolderReadings(d, csvs[..0], reading) == done;
    for j := 0 to |csvs|
      invariant summary.Valid()
      invariant summary.Contents() == Fold(done + FolderReadings(d, csvs[..j], reading))
    {
      var name := csvs[j];
      FolderStep(done, d, csvs, j, reading);
      ReadingIs(read, d, name, folderParsed);
      var target := Resolve(folderParsed, name);
      if target.None? {
        continue;
      }
      var val := read(d.path + [name]);
      summary.Record(Reading(target.value.key, target.value.kind, val));
    }
    assert csvs[..|csvs|] == csvs;
  }

  /**
   * `build_summary(input_dir)`: for every folder in natural order, skip it if
   * it has no CSV file, otherwise resolve each CSV file and record its value.
   */
  method BuildSummary(top: Dir, read: seq<string> -> Option<real>) returns (summary: SummaryTable)
    ensures fresh(summary) && summary.Valid()
    ensures summary.Contents() == Summarize(top, read)
  {
    summary := new SummaryTable();
    ghost var out := FolderOf(read);
    var dirs := ListAllDirs(top);
    for i := 0 to |dirs|
      invariant fresh(summary) && summary.Valid()
      invariant summary.Contents() == Fold(Readings(dirs[..i], out))
    {
      var d := dirs[i];
      DirsStep(dirs, i, out);
      var folderParsed := ParseFromName(Basename(d.path));
      var csvs := ListCsvInDir(d.dir);
      assert out(d) == FolderReadings(d, csvs, ReadingOf(read));
      if |csvs| == 0 {
        assert Readings(dirs[..i], out) + out(d) == Readings(dirs[..i], out);
        continue;
      }
      RecordFolder(summary, d, folderParsed, csvs, read, Readings(dirs[..i], out));
    }
    assert dirs[..|dirs|] == dirs;
  }
}
