/**
 * `normalize_position`: a position tag is trimmed, lower-cased and stripped of
 * spaces; a composite tag (`opl+ipl`) is split on `+`, emptied segments are
 * dropped and the rest are sorted and re-joined, so `opl+ipl` and `ipl+opl`
 * become one row.
 */
module Position {
  import opened Options
  import opened Strings
  import opened Order

  /** `pos.strip().lower().replace(" ", "")`. */
  function Clean(pos: string): string
  {
    RemoveAll(Lower(Strip(pos)), ' ')
  }

  /** `normalize_position(pos)`, with `None` for Python's `None`. */
  function NormalizePosition(pos: Option<string>): string
  {
    match pos
    case None => ""
    case Some(p) =>
      var c := Clean(p);
      if '+' in c then Join(Segments(c), '+') else c
  }

  /** The `+`-separated segments of a cleaned composite tag, empty ones dropped, sorted. */
  function Segments(c: string): seq<string>
  {
    SortBy(NonEmpty(Split(c, '+')), StrLe)
  }

  /** Lower-casing and space removal without the trim: what cleaning does to one segment. */
  function Tidy(s: string): string
  {
    RemoveAll(Lower(s), ' ')
  }

  function TidyAll(segs: seq<string>): seq<string>
  {
    seq(|segs|, i requires 0 <= i < |segs| => Tidy(segs[i]))
  }

  /** The segments that survive normalisation, before sorting. */
  function Surviving(segs: seq<string>): seq<string>
  {
    NonEmpty(TidyAll(segs))
  }

  // ---------------------------------------------------------------------------
  // Character-level facts

  lemma LowerNoUpper(s: string)
    ensures NoUpper(Lower(s))
  {
  }

  lemma RemoveAllKeeps(s: string, c: char, P: char -> bool)
    requires forall i :: 0 <= i < |s| ==> P(s[i])
    ensures forall i :: 0 <= i < |RemoveAll(s, c)| ==> P(RemoveAll(s, c)[i])
  {
    var r := RemoveAll(s, c);
    forall i | 0 <= i < |r| ensures P(r[i]) {
      assert r[i] in r;
      assert r[i] in s;
    }
  }

  /** A cleaned tag has no upper-case letter and no space character. */
  lemma CleanChars(p: string)
    ensures NoUpper(Clean(p)) && ' ' !in Clean(p)
  {
    LowerNoUpper(Strip(p));
    RemoveAllKeeps(Lower(Strip(p)), ' ', c => !IsUpper(c));
  }

  /** When `p`'s only whitespace is the plain space, a cleaned `p` holds no whitespace at all. */
  lemma CleanNoSpace(p: string)
    requires OnlyPlainSpaces(p)
    ensures NoSpace(Clean(p))
  {
    var st := Strip(p);
    assert forall i :: 0 <= i < |st| ==> st[i] in p;
    assert forall i :: 0 <= i < |Lower(st)| ==> (IsSpace(Lower(st)[i]) ==> Lower(st)[i] == ' ');
    RemoveAllKeeps(Lower(st), ' ', c => IsSpace(c) ==> c == ' ');
  }

  lemma StripNoSpace(s: string)
    requires NoSpace(s)
    ensures Strip(s) == s
  {
  }

  lemma LowerNoUpperId(s: string)
    requires NoUpper(s)
    ensures Lower(s) == s
  {
  }

  lemma {:induction false} RemoveAllAbsent(s: string, c: char)
    requires c !in s
    ensures RemoveAll(s, c) == s
  {
    if |s| > 0 {
      RemoveAllAbsent(s[1..], c);
      assert [s[0]] + s[1..] == s;
    }
  }

  /** Cleaning leaves a clean string alone. */
  lemma CleanFixed(s: string)
    requires NoSpace(s) && NoUpper(s)
    ensures Clean(s) == s
  {
    StripNoSpace(s);
    LowerNoUpperId(s);
    RemoveAllAbsent(s, ' ');
  }

  lemma {:induction false} RemoveAllSpaces(s: string)
    requires forall i :: 0 <= i < |s| ==> s[i] == ' '
    ensures RemoveAll(s, ' ') == ""
  {
    if |s| > 0 {
      RemoveAllSpaces(s[1..]);
    }
  }

  lemma TidyConcat(a: string, b: string)
    ensures Tidy(a + b) == Tidy(a) + Tidy(b)
  {
    LowerConcat(a, b);
    RemoveAllConcat(Lower(a), Lower(b), ' ');
  }

  lemma TidySpaces(s: string)
    requires forall i :: 0 <= i < |s| ==> s[i] == ' '
    ensures Tidy(s) == ""
  {
    RemoveAllSpaces(Lower(s));
  }

  /** Trimming cuts a run of whitespace off each end and keeps the middle. */
  lemma StripParts(p: string) returns (lead: string, trail: string)
    ensures p == lead + (Strip(p) + trail)
    ensures forall i :: 0 <= i < |lead| ==> IsSpace(lead[i])
    ensures forall i :: 0 <= i < |trail| ==> IsSpace(trail[i])
  {
    lead := StripLeftParts(p);
    trail := StripRightParts(StripLeft(p));
  }

  lemma {:induction false} StripLeftParts(p: string) returns (lead: string)
    ensures p == lead + StripLeft(p)
    ensures forall i :: 0 <= i < |lead| ==> IsSpace(lead[i])
  {
    var l := StripLeft(p);
    var k := |p| - |l|;
    lead := p[..k];
    assert p == lead + l by {
      assert l == p[k..];
    }
    forall i | 0 <= i < |lead| ensures IsSpace(lead[i]) {
      assert i < k && lead[i] == p[i];
      assert IsSpace(p[i]);
    }
  }

  lemma {:induction false} StripRightParts(l: string) returns (trail: string)
    ensures l == StripRight(l) + trail
    ensures forall i :: 0 <= i < |trail| ==> IsSpace(trail[i])
  {
    var st := StripRight(l);
    trail := l[|st|..];
    assert st == l[..|st|];
    forall i | 0 <= i < |trail| ensures IsSpace(trail[i]) {
      assert trail[i] == l[|st| + i];
    }
  }

  lemma PlainSpaces(s: string, p: string)
    requires OnlyPlainSpaces(p) && multiset(s) <= multiset(p)
    requires forall i :: 0 <= i < |s| ==> IsSpace(s[i])
    ensures Tidy(s) == ""
  {
    forall i | 0 <= i < |s| ensures s[i] == ' ' {
      assert s[i] in multiset(s);
    }
    TidySpaces(s);
  }

  /** When the only whitespace is the plain space, trimming first changes nothing. */
  lemma CleanIsTidy(p: string)
    requires OnlyPlainSpaces(p)
    ensures Clean(p) == Tidy(p)
  {
    var st := Strip(p);
    var lead, trail := StripParts(p);
    assert multiset(p) == multiset(lead) + multiset(st) + multiset(trail);
    PlainSpaces(lead, p);
    PlainSpaces(trail, p);
    TidyConcat(lead, st + trail);
    TidyConcat(st, trail);
  }

  // ---------------------------------------------------------------------------
  // Segment-level facts

  lemma TidyPlus(s: string)
    requires '+' !in s
    ensures '+' !in Tidy(s)
  {
    assert forall i :: 0 <= i < |Lower(s)| ==> Lower(s)[i] != '+';
  }

  /** Tidying a join tidies each segment. */
  lemma {:induction false} TidyJoin(segs: seq<string>)
    ensures Tidy(Join(segs, '+')) == Join(TidyAll(segs), '+')
  {
    if |segs| >= 2 {
      TidyJoin(segs[1..]);
      var rest := Join(segs[1..], '+');
      assert Lower(segs[0] + ['+'] + rest) == Lower(segs[0]) + ['+'] + Lower(rest);
      RemoveAllConcat(Lower(segs[0]) + ['+'], Lower(rest), ' ');
      RemoveAllConcat(Lower(segs[0]), ['+'], ' ');
      assert TidyAll(segs)[1..] == TidyAll(segs[1..]);
    } else if |segs| == 1 {
    }
  }

  lemma JoinOnlyPlainSpaces(segs: seq<string>)
    requires forall i :: 0 <= i < |segs| ==> OnlyPlainSpaces(segs[i])
    ensures OnlyPlainSpaces(Join(segs, '+'))
    decreases |segs|
  {
    if |segs| >= 2 {
      JoinOnlyPlainSpaces(segs[1..]);
    }
  }

  /**
   * A tag written as two or more `+`-separated segments normalises to the
   * sorted, non-empty, tidied segments joined with `+`.
   */
  lemma NormalizeSegments(segs: seq<string>)
    requires |segs| >= 2
    requires forall i :: 0 <= i < |segs| ==> '+' !in segs[i] && OnlyPlainSpaces(segs[i])
    ensures NormalizePosition(Some(Join(segs, '+'))) == Join(SortBy(Surviving(segs), StrLe), '+')
  {
    JoinOnlyPlainSpaces(segs);
    CleanIsTidy(Join(segs, '+'));
    TidyJoin(segs);
    forall i | 0 <= i < |segs| ensures '+' !in TidyAll(segs)[i] {
      TidyPlus(segs[i]);
    }
    JoinHasSep(TidyAll(segs), '+');
    SplitJoin(TidyAll(segs), '+');
  }

  lemma {:induction false} NonEmptyConcat(a: seq<string>, b: seq<string>)
    ensures NonEmpty(a + b) == NonEmpty(a) + NonEmpty(b)
  {
    if |a| > 0 {
      assert (a + b)[1..] == a[1..] + b;
      NonEmptyConcat(a[1..], b);
    } else {
      assert a + b == b;
    }
  }

  lemma SurvivingConcat(a: seq<string>, b: seq<string>)
    ensures Surviving(a + b) == Surviving(a) + Surviving(b)
  {
    assert TidyAll(a + b) == TidyAll(a) + TidyAll(b);
    NonEmptyConcat(TidyAll(a), TidyAll(b));
  }

  /** Which segments survive depends only on the multiset of segments. */
  lemma {:induction false} SurvivingPermutation(s1: seq<string>, s2: seq<string>)
    requires multiset(s1) == multiset(s2)
    ensures multiset(Surviving(s1)) == multiset(Surviving(s2))
    decreases |s1|
  {
    if |s1| == 0 {
      assert |s2| == |multiset(s2)| == 0;
    } else {
      var x := s1[0];
      assert x in multiset(s2);
      var k :| 0 <= k < |s2| && s2[k] == x;
      var r := SurvivingRemove(s2, k);
      assert s1 == [x] + s1[1..];
      assert multiset(s1[1..]) == multiset(s1) - multiset{x};
      SurvivingPermutation(s1[1..], r);
      SurvivingConcat([x], s1[1..]);
    }
  }

  /** Taking out the `k`-th segment takes out its survivor, if any. */
  lemma SurvivingRemove(s: seq<string>, k: nat) returns (r: seq<string>)
    requires k < |s|
    ensures r == s[..k] + s[k + 1..]
    ensures multiset(r) == multiset(s) - multiset{s[k]}
    ensures multiset(Surviving(s)) == multiset(Surviving([s[k]])) + multiset(Surviving(r))
  {
    var x := s[k];
    r := s[..k] + s[k + 1..];
    assert s == s[..k] + ([x] + s[k + 1..]);
    SurvivingConcat(s[..k], [x] + s[k + 1..]);
    SurvivingConcat([x], s[k + 1..]);
    SurvivingConcat(s[..k], s[k + 1..]);
  }

  /**
   * Any permutation of the same `+`-separated segments normalises to the same
   * string, so `opl+ipl` and `ipl+opl` share a row.
   */
  lemma NormalizePermutationInvariant(s1: seq<string>, s2: seq<string>)
    requires multiset(s1) == multiset(s2)
    requires forall i :: 0 <= i < |s1| ==> '+' !in s1[i] && OnlyPlainSpaces(s1[i])
    requires forall i :: 0 <= i < |s2| ==> '+' !in s2[i] && OnlyPlainSpaces(s2[i])
    ensures NormalizePosition(Some(Join(s1, '+'))) == NormalizePosition(Some(Join(s2, '+')))
  {
    assert |s1| == |s2| by {
      assert |s1| == |multiset(s1)| && |s2| == |multiset(s2)|;
    }
    if |s1| >= 2 {
      NormalizeSegments(s1);
      NormalizeSegments(s2);
      SurvivingPermutation(s1, s2);
      SortDetermined(Surviving(s1), Surviving(s2));
    } else {
      ShortPermutation(s1, s2);
    }
  }

  lemma ShortPermutation(s1: seq<string>, s2: seq<string>)
    requires multiset(s1) == multiset(s2) && |s1| == |s2| < 2
    ensures s1 == s2
  {
    if |s1| == 1 {
      assert s1[0] in multiset(s2);
    }
  }

  /** Sorting by `StrLe` leaves one result per multiset. */
  lemma SortDetermined(a: seq<string>, b: seq<string>)
    requires multiset(a) == multiset(b)
    ensures SortBy(a, StrLe) == SortBy(b, StrLe)
  {
    StrLeTotalOrder();
    SortSorted(a, StrLe);
    SortSorted(b, StrLe);
    SortedUnique(SortBy(a, StrLe), SortBy(b, StrLe), StrLe);
  }

  // ---------------------------------------------------------------------------
  // What the result looks like

  lemma {:induction false} SplitKeeps(s: string, sep: char, P: char -> bool)
    requires forall i :: 0 <= i < |s| ==> P(s[i])
    ensures forall j, i :: 0 <= j < |Split(s, sep)| && 0 <= i < |Split(s, sep)[j]| ==> P(Split(s, sep)[j][i])
  {
    if |s| > 0 {
      SplitKeeps(s[1..], sep, P);
    }
  }

  lemma {:induction false} JoinKeeps(parts: seq<string>, sep: char, P: char -> bool)
    requires P(sep)
    requires forall j, i :: 0 <= j < |parts| && 0 <= i < |parts[j]| ==> P(parts[j][i])
    ensures forall i :: 0 <= i < |Join(parts, sep)| ==> P(Join(parts, sep)[i])
  {
    if |parts| >= 2 {
      JoinKeeps(parts[1..], sep, P);
      var rest := Join(parts[1..], sep);
      forall i | 0 <= i < |Join(parts, sep)| ensures P(Join(parts, sep)[i]) {
        if i < |parts[0]| {
        } else if i == |parts[0]| {
        } else {
          assert Join(parts, sep)[i] == rest[i - |parts[0]| - 1];
        }
      }
    }
  }

  /** Each segment is non-empty, holds no `+`, and is made of characters of the tag. */
  lemma SegmentsKeep(c: string, P: char -> bool)
    requires forall i :: 0 <= i < |c| ==> P(c[i])
    ensures forall j :: 0 <= j < |Segments(c)| ==> Segments(c)[j] != "" && '+' !in Segments(c)[j]
    ensures forall j, i :: 0 <= j < |Segments(c)| && 0 <= i < |Segments(c)[j]| ==> P(Segments(c)[j][i])
  {
    var parts := Split(c, '+');
    SplitKeeps(c, '+', P);
    var segs := Segments(c);
    forall j | 0 <= j < |segs|
      ensures segs[j] != "" && '+' !in segs[j]
      ensures forall i :: 0 <= i < |segs[j]| ==> P(segs[j][i])
    {
      var k := SegmentSource(c, j);
    }
  }

  /** Each segment is one of the pieces the tag splits into, and not an empty one. */
  lemma SegmentSource(c: string, j: nat) returns (k: nat)
    requires j < |Segments(c)|
    ensures k < |Split(c, '+')| && Split(c, '+')[k] == Segments(c)[j] != ""
  {
    var parts := Split(c, '+');
    var x := Segments(c)[j];
    assert x in multiset(Segments(c));
    assert x in NonEmpty(parts);
    k :| 0 <= k < |parts| && parts[k] == x;
  }

  /**
   * A normalised position has no upper-case letter and no space; a plain tag
   * is just cleaned; a composite tag yields its non-empty segments, sorted,
   * joined with `+`, or `""` when every segment is empty.
   */
  lemma NormalizeShape(pos: Option<string>)
    ensures var r := NormalizePosition(pos);
      && (pos.None? ==> r == "")
      && NoUpper(r) && ' ' !in r
      && (pos.Some? && '+' !in Clean(pos.value) ==> r == Clean(pos.value))
      && (pos.Some? && '+' in Clean(pos.value) ==>
            var survivors := NonEmpty(Split(Clean(pos.value), '+'));
            && (survivors == [] ==> r == "")
            && (survivors != [] ==>
                  && SortedBy(Split(r, '+'), StrLe)
                  && multiset(Split(r, '+')) == multiset(survivors)
                  && forall j :: 0 <= j < |Split(r, '+')| ==> Split(r, '+')[j] != ""))
  {
    if pos.Some? {
      var c := Clean(pos.value);
      CleanChars(pos.value);
      if '+' in c {
        var P := (x: char) => !IsUpper(x) && x != ' ';
        SegmentsKeep(c, P);
        JoinKeeps(Segments(c), '+', P);
        var r := Join(Segments(c), '+');
        assert NoUpper(r) && ' ' !in r by {
          assert forall i :: 0 <= i < |r| ==> P(r[i]);
        }
        if Segments(c) != [] {
          SplitJoin(Segments(c), '+');
          StrLeTotalOrder();
          SortSorted(NonEmpty(Split(c, '+')), StrLe);
        }
      }
    }
  }

  lemma {:induction false} NonEmptyId(parts: seq<string>)
    requires forall i :: 0 <= i < |parts| ==> parts[i] != ""
    ensures NonEmpty(parts) == parts
  {
    if |parts| > 0 {
      NonEmptyId(parts[1..]);
    }
  }

  /**
   * Normalising twice is normalising once, for tags whose only whitespace is
   * the plain space.
   */
  lemma NormalizeIdempotent(p: string)
    requires OnlyPlainSpaces(p)
    ensures NormalizePosition(Some(NormalizePosition(Some(p)))) == NormalizePosition(Some(p))
  {
    var c := Clean(p);
    CleanChars(p);
    CleanNoSpace(p);
    if '+' !in c {
      CleanFixed(c);
    } else {
      var P := (x: char) => !IsUpper(x) && !IsSpace(x);
      var segs := Segments(c);
      SegmentsKeep(c, P);
      JoinKeeps(segs, '+', P);
      var r := Join(segs, '+');
      assert NoSpace(r) && NoUpper(r) by {
        assert forall i :: 0 <= i < |r| ==> P(r[i]);
      }
      CleanFixed(r);
      JoinHasSep(segs, '+');
      if |segs| >= 2 {
        SplitJoin(segs, '+');
        NonEmptyId(segs);
        StrLeTotalOrder();
        SortSorted(NonEmpty(Split(c, '+')), StrLe);
        SortIdentity(segs, StrLe);
      }
    }
  }

  // ---------------------------------------------------------------------------
  // Examples. Each literal step is its own small lemma; the `...From` lemmas
  // put the steps together without unfolding the literals again.

  lemma CleanFrom(p: string, st: string, lo: string, c: string)
    requires Strip(p) == st && Lower(st) == lo && RemoveAll(lo, ' ') == c
    ensures Clean(p) == c
  {
  }

  lemma ComposedFrom(p: string, c: string, segs: seq<string>)
    requires Clean(p) == c && '+' in c && Segments(c) == segs
    ensures NormalizePosition(Some(p)) == Join(segs, '+')
  {
  }

  lemma PlainFrom(p: string, c: string)
    requires Clean(p) == c && '+' !in c
    ensures NormalizePosition(Some(p)) == c
  {
  }

  lemma SegmentsFrom(c: string, parts: seq<string>, sorted: seq<string>)
    requires |parts| >= 1 && forall i :: 0 <= i < |parts| ==> '+' !in parts[i]
    requires Join(parts, '+') == c
    requires multiset(NonEmpty(parts)) == multiset(sorted) && SortedBy(sorted, StrLe)
    ensures Segments(c) == sorted
  {
    SplitJoin(parts, '+');
    StrLeTotalOrder();
    SortSorted(NonEmpty(parts), StrLe);
    SortedUnique(Segments(c), sorted, StrLe);
  }

  /** A string with no whitespace at either end is its own trim. */
  lemma StripFixed(s: string)
    requires |s| > 0 && !IsSpace(s[0]) && !IsSpace(s[|s| - 1])
    ensures Strip(s) == s
  {
  }

  lemma StripPadded(a: string)
    requires |a| > 0 && !IsSpace(a[0]) && !IsSpace(a[|a| - 1])
    ensures Strip(" " + (a + " ")) == a
  {
    assert (" " + (a + " "))[1..] == a + " ";
    assert (a + " ")[..|a|] == a;
  }

  lemma StripLeading(c: char, a: string)
    requires IsSpace(c) && |a| > 0 && !IsSpace(a[0]) && !IsSpace(a[|a| - 1])
    ensures Strip([c] + a) == a
  {
    assert ([c] + a)[1..] == a;
  }

  lemma RemoveSpaceAfter(a: string, b: string)
    requires ' ' !in a
    ensures RemoveAll(a + (" " + b), ' ') == a + RemoveAll(b, ' ')
  {
    var t := " " + b;
    RemoveAllConcat(a, t, ' ');
    RemoveAllAbsent(a, ' ');
    assert t[0] == ' ' && t[1..] == b;
    assert RemoveAll(t, ' ') == RemoveAll(b, ' ');
  }

  /** A tag without upper case, spaces or whitespace at its ends is already clean. */
  lemma CleanPlain(s: string)
    requires |s| > 0 && !IsSpace(s[0]) && !IsSpace(s[|s| - 1]) && NoUpper(s) && ' ' !in s
    ensures Clean(s) == s
  {
    StripFixed(s);
    LowerNoUpperId(s);
    RemoveAllAbsent(s, ' ');
  }

  /** Two segments that come out of the sort swapped. */
  lemma SegmentsSwapped2(c: string, x: string, y: string)
    requires '+' !in x && '+' !in y && x != "" && y != ""
    requires Join([x, y], '+') == c && SortedBy([y, x], StrLe)
    ensures Segments(c) == [y, x]
  {
    var parts, sorted := [x, y], [y, x];
    assert forall i :: 0 <= i < |parts| ==> parts[i] != "" && '+' !in parts[i];
    NonEmptyId(parts);
    assert multiset(parts) == multiset(sorted);
    SegmentsFrom(c, parts, sorted);
  }

  /** Three segments of which the sort swaps the first two. */
  lemma SegmentsSwapped3(c: string, x: string, y: string, z: string)
    requires '+' !in x && '+' !in y && '+' !in z && x != "" && y != "" && z != ""
    requires Join([x, y, z], '+') == c && SortedBy([y, x, z], StrLe)
    ensures Segments(c) == [y, x, z]
  {
    var parts, sorted := [x, y, z], [y, x, z];
    assert forall i :: 0 <= i < |parts| ==> parts[i] != "" && '+' !in parts[i];
    NonEmptyId(parts);
    assert multiset(parts) == multiset(sorted);
    SegmentsFrom(c, parts, sorted);
  }

  lemma SpacedPadding() ensures " OPL + IPL " == " " + ("OPL + IPL" + " ") { }

  lemma StripSpaced() ensures Strip(" OPL + IPL ") == "OPL + IPL"
  {
    SpacedPadding();
    StripPadded("OPL + IPL");
  }

  lemma LowerSpaced() ensures Lower("OPL + IPL") == "opl + ipl" { }

  lemma SpacedPieces() ensures "opl + ipl" == "opl" + (" " + ("+" + (" " + "ipl"))) { }

  lemma RemoveSpaced() ensures RemoveAll("opl + ipl", ' ') == "opl+ipl"
  {
    SpacedPieces();
    RemoveSpacedTail();
    RemoveSpaceAfter("opl", "+" + (" " + "ipl"));
    assert "opl" + "+ipl" == "opl+ipl";
  }

  lemma RemoveSpacedTail() ensures RemoveAll("+" + (" " + "ipl"), ' ') == "+ipl"
  {
    RemoveSpaceAfter("+", "ipl");
    RemoveAllAbsent("ipl", ' ');
  }

  lemma JoinOplIpl() ensures Join(["opl", "ipl"], '+') == "opl+ipl" { }

  lemma JoinIplOpl() ensures Join(["ipl", "opl"], '+') == "ipl+opl" { }

  lemma IplBeforeOpl() ensures SortedBy(["ipl", "opl"], StrLe) { }

  lemma CleanSpacedTag() ensures Clean(" OPL + IPL ") == "opl+ipl"
  {
    StripSpaced();
    LowerSpaced();
    RemoveSpaced();
    CleanFrom(" OPL + IPL ", "OPL + IPL", "opl + ipl", "opl+ipl");
  }

  lemma SegmentsOplIpl() ensures Segments("opl+ipl") == ["ipl", "opl"]
  {
    JoinOplIpl();
    IplBeforeOpl();
    SegmentsSwapped2("opl+ipl", "opl", "ipl");
  }

  /** `" OPL + IPL "` becomes `ipl+opl`. */
  lemma CompositeExample()
    ensures NormalizePosition(Some(" OPL + IPL ")) == "ipl+opl"
  {
    CleanSpacedTag();
    SegmentsOplIpl();
    assert '+' in "opl+ipl";
    ComposedFrom(" OPL + IPL ", "opl+ipl", ["ipl", "opl"]);
    JoinIplOpl();
  }

  lemma CleanOplIpl() ensures Clean("opl+ipl") == "opl+ipl"
  {
    CleanPlain("opl+ipl");
  }

  /** `opl+ipl` becomes `ipl+opl`. */
  lemma SwappedExample()
    ensures NormalizePosition(Some("opl+ipl")) == "ipl+opl"
  {
    CleanOplIpl();
    SegmentsOplIpl();
    assert '+' in "opl+ipl";
    ComposedFrom("opl+ipl", "opl+ipl", ["ipl", "opl"]);
    JoinIplOpl();
  }

  /** A normalised tag is its own normal form: `ipl+opl` stays `ipl+opl`. */
  lemma NormalExample()
    ensures NormalizePosition(Some("ipl+opl")) == "ipl+opl"
  {
    CompositeExample();
    SpacedTagPlain();
    FixedPoint(" OPL + IPL ", "ipl+opl");
  }

  lemma SpacedTagPlain() ensures OnlyPlainSpaces(" OPL + IPL ") { }

  lemma SpacedGclPlain() ensures OnlyPlainSpaces(" GCL ") { }

  lemma FixedPoint(p: string, r: string)
    requires OnlyPlainSpaces(p) && NormalizePosition(Some(p)) == r
    ensures NormalizePosition(Some(r)) == r
  {
    NormalizeIdempotent(p);
  }

  lemma LonePlusSplit() ensures Join(["", ""], '+') == "+" { }

  lemma LonePlusClean() ensures Clean("+") == "+"
  {
    CleanFixed("+");
  }

  /** A lone `+` leaves no segment and becomes `""`. */
  lemma LonePlusExample()
    ensures NormalizePosition(Some("+")) == ""
  {
    LonePlusClean();
    LonePlusSplit();
    assert NonEmpty(["", ""]) == [];
    SegmentsFrom("+", ["", ""], []);
    assert '+' in "+";
    ComposedFrom("+", "+", []);
  }

  lemma StripGcl() ensures Strip(" GCL ") == "GCL"
  {
    assert " GCL " == " " + ("GCL" + " ");
    StripPadded("GCL");
  }

  lemma LowerGcl() ensures Lower("GCL") == "gcl" { }

  lemma RemoveGcl() ensures RemoveAll("gcl", ' ') == "gcl"
  {
    RemoveAllAbsent("gcl", ' ');
  }

  /** A plain tag is trimmed and lower-cased: `" GCL "` becomes `gcl`. */
  lemma PlainExample()
    ensures NormalizePosition(Some(" GCL ")) == "gcl"
  {
    CleanGcl();
    PlainFrom(" GCL ", "gcl");
  }

  lemma CleanGcl() ensures Clean(" GCL ") == "gcl" && '+' !in "gcl"
  {
    StripGcl();
    LowerGcl();
    RemoveGcl();
    CleanFrom(" GCL ", "GCL", "gcl", "gcl");
  }

  lemma TabClean1() ensures Clean("a+\t+b") == "a+\t+b"
  {
    CleanPlain("a+\t+b");
  }

  lemma TabJoin1() ensures Join(["a", "\t", "b"], '+') == "a+\t+b" { }

  lemma TabJoin2() ensures Join(["\t", "a", "b"], '+') == "\t+a+b" { }

  lemma TabSorted() ensures SortedBy(["\t", "a", "b"], StrLe) { }

  lemma TabStrip() ensures Strip("\t+a+b") == "+a+b"
  {
    assert "\t+a+b" == ['\t'] + "+a+b";
    StripLeading('\t', "+a+b");
  }

  lemma TabLower() ensures Lower("+a+b") == "+a+b" { }

  lemma TabRemove() ensures RemoveAll("+a+b", ' ') == "+a+b"
  {
    RemoveAllAbsent("+a+b", ' ');
  }

  lemma TabJoin3() ensures Join(["", "a", "b"], '+') == "+a+b" { }

  lemma TabJoin4() ensures Join(["a", "b"], '+') == "a+b" { }

  lemma AbSorted() ensures SortedBy(["a", "b"], StrLe) { }

  lemma TabSegments1() ensures Segments("a+\t+b") == ["\t", "a", "b"]
  {
    TabJoin1();
    TabSorted();
    SegmentsSwapped3("a+\t+b", "a", "\t", "b");
  }

  lemma TabClean2() ensures Clean("\t+a+b") == "+a+b"
  {
    TabStrip();
    TabLower();
    TabRemove();
    CleanFrom("\t+a+b", "+a+b", "+a+b", "+a+b");
  }

  lemma TabSegments2() ensures Segments("+a+b") == ["a", "b"]
  {
    TabJoin3();
    AbSorted();
    assert NonEmpty(["", "a", "b"]) == ["a", "b"];
    SegmentsFrom("+a+b", ["", "a", "b"], ["a", "b"]);
  }

  /**
   * Normalising is not idempotent once a tab sits between two `+`: the tab is
   * not removed, survives as a segment, sorts first, and is trimmed away the
   * second time round.
   */
  lemma TabBreaksIdempotence()
    ensures NormalizePosition(Some("a+\t+b")) == "\t+a+b"
    ensures NormalizePosition(Some("\t+a+b")) == "a+b"
  {
    TabClean1();
    TabSegments1();
    assert '+' in "a+\t+b";
    ComposedFrom("a+\t+b", "a+\t+b", ["\t", "a", "b"]);
    TabJoin2();
    TabClean2();
    TabSegments2();
    assert '+' in "+a+b";
    ComposedFrom("\t+a+b", "+a+b", ["a", "b"]);
    TabJoin4();
  }

  /**
   * Reordering segments can change the result once a segment holds a tab:
   * `a`, tab, `b` and tab, `a`, `b` are the same segments, but a leading tab
   * is trimmed by `strip()` while an inner one survives.
   */
  lemma TabBreaksPermutation()
    ensures multiset(["a", "\t", "b"]) == multiset(["\t", "a", "b"])
    ensures NormalizePosition(Some(Join(["a", "\t", "b"], '+'))) == "\t+a+b"
    ensures NormalizePosition(Some(Join(["\t", "a", "b"], '+'))) == "a+b"
  {
    TabMultiset();
    TabJoin1();
    TabJoin2();
    TabBreaksIdempotence();
  }

  lemma TabMultiset() ensures multiset(["a", "\t", "b"]) == multiset(["\t", "a", "b"]) { }
}
