/**
 * `natural_key`: a name becomes alternating text and number chunks so that
 * `img2` sorts before `img10`.
 */
module NaturalSort {
  import opened Strings
  import opened Order

  datatype Chunk = Text(s: string) | Num(n: nat)

  /** `re.split(r"(\d+)", s)`: text pieces at even indices, digit runs at odd ones. */
  function SplitDigits(s: string): (pieces: seq<string>)
    ensures |pieces| % 2 == 1
    decreases |s|
  {
    if |s| == 0 then [""]
    else
      var rest := SplitDigits(s[1..]);
      if !IsDigit(s[0]) then [[s[0]] + rest[0]] + rest[1..]
      else if rest[0] == "" && |rest| > 1 then [""] + [[s[0]] + rest[1]] + rest[2..]
      else ["", [s[0]]] + rest
  }

  /**
   * What `re.split` with one capturing group returns: text, digit run, text, ...,
   * text; digit runs non-empty, text pieces digit-free, and the text between two
   * runs non-empty (so every run is maximal).
   */
  ghost predicate Alternates(p: seq<string>)
    decreases |p|
  {
    && |p| >= 1
    && NoDigit(p[0])
    && (|p| == 1 || (|p| >= 3 && IsDigitString(p[1]) && (|p| > 3 ==> p[2] != "") && Alternates(p[2..])))
  }

  ghost predicate DigitSplitOf(p: seq<string>, s: string)
  {
    Alternates(p) && Concat(p) == s
  }

  lemma {:induction false} AlternatesIndexed(p: seq<string>)
    requires Alternates(p)
    ensures |p| % 2 == 1
    ensures forall i :: 0 <= i < |p| && i % 2 == 0 ==> NoDigit(p[i])
    ensures forall i :: 0 <= i < |p| && i % 2 == 1 ==> IsDigitString(p[i])
    decreases |p|
  {
    if |p| > 1 {
      AlternatesIndexed(p[2..]);
      assert forall i :: 2 <= i < |p| ==> p[i] == p[2..][i - 2];
    }
  }

  /** The split puts back together to the name and alternates as `re.split` promises. */
  lemma {:induction false} SplitDigitsSpec(s: string)
    ensures DigitSplitOf(SplitDigits(s), s)
    decreases |s|
  {
    if |s| > 0 {
      var rest := SplitDigits(s[1..]);
      SplitDigitsSpec(s[1..]);
      assert s == [s[0]] + s[1..];
      if !IsDigit(s[0]) {
        PrependText(s[0], rest);
      } else if rest[0] == "" && |rest| > 1 {
        ExtendRun(s[0], rest);
      } else {
        StartRun(s[0], rest);
      }
    }
  }

  lemma PrependText(c: char, rest: seq<string>)
    requires !IsDigit(c) && Alternates(rest)
    ensures DigitSplitOf([[c] + rest[0]] + rest[1..], [c] + Concat(rest))
  {
    var p := [[c] + rest[0]] + rest[1..];
    assert p[1..] == rest[1..];
    assert Concat(p) == [c] + Concat(rest) by {
      ConcatUnfold(rest);
      ConcatUnfold(p);
    }
    assert Alternates(p) by {
      assert |p| > 1 ==> p[2..] == rest[2..];
      ConsNoDigit(c, rest[0]);
    }
  }

  lemma ExtendRun(c: char, rest: seq<string>)
    requires IsDigit(c) && Alternates(rest) && rest[0] == "" && |rest| > 1
    ensures DigitSplitOf([""] + [[c] + rest[1]] + rest[2..], [c] + Concat(rest))
  {
    var p := [""] + [[c] + rest[1]] + rest[2..];
    ExtendRunConcat(c, rest);
    assert p[2..] == rest[2..];
    ConsDigits(c, rest[1]);
  }

  lemma ExtendRunConcat(c: char, rest: seq<string>)
    requires |rest| >= 3 && rest[0] == ""
    ensures Concat([""] + [[c] + rest[1]] + rest[2..]) == [c] + Concat(rest)
  {
    var p := [""] + [[c] + rest[1]] + rest[2..];
    assert p[0] == "" && p[1] == [c] + rest[1] && p[2..] == rest[2..];
    ConcatUnfold2(rest);
    ConcatUnfold2(p);
    PrependToRun(c, rest[1], Concat(rest[2..]));
  }

  lemma PrependToRun(c: char, run: string, tail: string)
    ensures "" + ([c] + run) + tail == [c] + ("" + run + tail)
  {
  }

  lemma StartRun(c: char, rest: seq<string>)
    requires IsDigit(c) && Alternates(rest) && (rest[0] != "" || |rest| == 1)
    ensures DigitSplitOf(["", [c]] + rest, [c] + Concat(rest))
  {
    var p := ["", [c]] + rest;
    assert p[0] == "" && p[1] == [c] && p[2..] == rest;
    assert Alternates(p) by {
      assert NoDigit(p[0]) && IsDigitString(p[1]);
      assert |p| > 3 ==> p[2] == rest[0] != "";
    }
    assert Concat(p) == [c] + Concat(rest) by {
      ConcatUnfold2(p);
      assert p[0] + p[1] == [c];
    }
  }

  lemma ConsNoDigit(c: char, t: string)
    requires !IsDigit(c) && NoDigit(t)
    ensures NoDigit([c] + t)
  {
  }

  lemma ConsDigits(c: char, t: string)
    requires IsDigit(c) && AllDigits(t)
    ensures IsDigitString([c] + t)
  {
  }

  lemma ConcatUnfold(p: seq<string>)
    requires |p| >= 1
    ensures Concat(p) == p[0] + Concat(p[1..])
  {
  }

  lemma ConcatUnfold2(p: seq<string>)
    requires |p| >= 3
    ensures Concat(p) == p[0] + p[1] + Concat(p[2..])
  {
    assert p[1..][1..] == p[2..];
  }

  /**
   * The split is the only such decomposition, so `DigitSplitOf` is an
   * independent definition of what `re.split` returns.
   */
  lemma {:induction false} DigitSplitUnique(p: seq<string>, s: string)
    requires DigitSplitOf(p, s)
    ensures p == SplitDigits(s)
    decreases |s|
  {
    if |p| >= 3 {
      ConcatUnfold2(p);
    } else {
      assert |p| == 1 && Concat(p) == p[0] + Concat([]) by {
        assert p[1..] == [];
      }
    }
    if |s| > 0 {
      var p';
      if p[0] != "" {
        p' := UniqueText(p, s);
      } else if |p[1]| >= 2 {
        p' := UniqueLongRun(p, s);
      } else {
        p' := UniqueShortRun(p, s);
      }
      DigitSplitUnique(p', s[1..]);
    }
  }

  lemma {:induction false} UniqueText(p: seq<string>, s: string) returns (p': seq<string>)
    requires DigitSplitOf(p, s) && |s| > 0 && p[0] != ""
    ensures DigitSplitOf(p', s[1..])
    ensures p' == SplitDigits(s[1..]) ==> p == SplitDigits(s)
  {
    p' := [p[0][1..]] + p[1..];
    ConcatUnfold(p);
    ConcatUnfold(p');
    assert p'[1..] == p[1..];
    assert |p| > 1 ==> p'[2..] == p[2..];
    assert s[0] == p[0][0] && s[1..] == p[0][1..] + Concat(p[1..]);
    assert NoDigit(p'[0]) by {
      assert NoDigit(p[0]);
    }
    assert [s[0]] + p[0][1..] == p[0];
  }

  lemma {:induction false} UniqueLongRun(p: seq<string>, s: string) returns (p': seq<string>)
    requires DigitSplitOf(p, s) && |s| > 0 && p[0] == "" && |p| >= 3 && |p[1]| >= 2
    ensures DigitSplitOf(p', s[1..])
    ensures p' == SplitDigits(s[1..]) ==> p == SplitDigits(s)
  {
    var d := p[1];
    p' := [""] + [d[1..]] + p[2..];
    assert p'[2..] == p[2..];
    ConcatUnfold2(p);
    ConcatUnfold2(p');
    assert s[0] == d[0] && s[1..] == d[1..] + Concat(p[2..]);
    assert IsDigitString(p'[1]) by {
      assert IsDigitString(d);
    }
    assert [s[0]] + d[1..] == d;
    assert p == [""] + [d] + p[2..];
  }

  lemma {:induction false} UniqueShortRun(p: seq<string>, s: string) returns (p': seq<string>)
    requires DigitSplitOf(p, s) && |s| > 0 && p[0] == "" && |p| >= 3 && |p[1]| == 1
    ensures DigitSplitOf(p', s[1..])
    ensures p' == SplitDigits(s[1..]) ==> p == SplitDigits(s)
  {
    p' := p[2..];
    ConcatUnfold2(p);
    assert s[0] == p[1][0] && s[1..] == Concat(p');
    assert p[1] == [s[0]];
    assert p == ["", p[1]] + p';
  }

  /** `int(d)` for a string of ASCII digits. */
  function DecimalValue(d: string): nat
    requires AllDigits(d)
  {
    if |d| == 0 then 0 else DecimalValue(d[..|d| - 1]) * 10 + (d[|d| - 1] as int - '0' as int)
  }

  /** `t.isdigit()`: non-empty and all digits. */
  predicate IsDigitString(t: string) { |t| > 0 && AllDigits(t) }

  /** `[int(t) if t.isdigit() else t.lower() for t in re.split(r"(\d+)", text)]`. */
  function NaturalKey(text: string): (key: seq<Chunk>)
    ensures |key| % 2 == 1
    ensures forall i :: 0 <= i < |key| ==> (key[i].Text? <==> i % 2 == 0)
    ensures forall i :: 0 <= i < |key| && key[i].Text? ==> NoDigit(key[i].s) && NoUpper(key[i].s)
  {
    var pieces := SplitDigits(text);
    SplitDigitsSpec(text);
    AlternatesIndexed(pieces);
    seq(|pieces|, i requires 0 <= i < |pieces| =>
      if IsDigitString(pieces[i]) then Num(DecimalValue(pieces[i])) else Text(Lower(pieces[i])))
  }

  /** `a < b` on chunks; text and number never meet at the same index of two keys. */
  predicate ChunkLt(a: Chunk, b: Chunk)
  {
    match (a, b)
    case (Text(x), Text(y)) => StrLe(x, y) && x != y
    case (Num(m), Num(n)) => m < n
    case (Text(_), Num(_)) => true
    case (Num(_), Text(_)) => false
  }

  /** `key_a <= key_b` as Python compares lists. */
  predicate KeyLe(a: seq<Chunk>, b: seq<Chunk>) { LexLe(a, b, ChunkLt) }

  /** The order `sort(key=natural_key)` uses: `a` may precede `b`. */
  predicate NameLe(a: string, b: string) { KeyLe(NaturalKey(a), NaturalKey(b)) }

  lemma ChunkLtStrictTotal()
    ensures StrictTotal(ChunkLt)
  {
    StrLeTotalOrder();
  }

  lemma KeyLeTotalOrder()
    ensures forall a, b :: KeyLe(a, b) || KeyLe(b, a)
    ensures forall a, b, c :: KeyLe(a, b) && KeyLe(b, c) ==> KeyLe(a, c)
    ensures forall a, b :: KeyLe(a, b) && KeyLe(b, a) ==> a == b
  {
    ChunkLtStrictTotal();
    forall a, b ensures KeyLe(a, b) || KeyLe(b, a) { LexLeTotal(a, b, ChunkLt); }
    forall a, b, c | KeyLe(a, b) && KeyLe(b, c) ensures KeyLe(a, c) { LexLeTrans(a, b, c, ChunkLt); }
    forall a, b | KeyLe(a, b) && KeyLe(b, a) ensures a == b { LexLeAntisym(a, b, ChunkLt); }
  }

  /** Natural order is a total preorder on names, so sorting by it is well defined. */
  lemma NameLeTotalPreorder()
    ensures TotalPreorder(NameLe)
  {
    KeyLeTotalOrder();
  }

  /** At every index two keys share, both chunks are text or both are numbers. */
  lemma KeysAlign(a: string, b: string, i: nat)
    requires i < |NaturalKey(a)| && i < |NaturalKey(b)|
    ensures NaturalKey(a)[i].Text? == NaturalKey(b)[i].Text?
  {
  }

  /** Given any decomposition of the kind `re.split` makes, the key maps runs to integers and text to lower case. */
  lemma NaturalKeyOfSplit(p: seq<string>, s: string)
    requires DigitSplitOf(p, s)
    ensures |NaturalKey(s)| == |p|
    ensures forall i :: 0 <= i < |p| && i % 2 == 1 ==> AllDigits(p[i]) && NaturalKey(s)[i] == Num(DecimalValue(p[i]))
    ensures forall i :: 0 <= i < |p| && i % 2 == 0 ==> NaturalKey(s)[i] == Text(Lower(p[i]))
  {
    DigitSplitUnique(p, s);
    AlternatesIndexed(p);
  }

  /** A digit-free stem followed by a number: `img10` keys as `["img", 10, ""]`. */
  lemma KeyOfStemAndNumber(stem: string, digits: string)
    requires NoDigit(stem) && IsDigitString(digits)
    ensures NaturalKey(stem + digits) == [Text(Lower(stem)), Num(DecimalValue(digits)), Text("")]
  {
    var p := [stem, digits, ""];
    assert p[2..] == [""];
    assert Alternates(p);
    assert Concat(p) == stem + digits by {
      ConcatUnfold2(p);
    }
    NaturalKeyOfSplit(p, stem + digits);
  }

  lemma ExampleKeys()
    ensures NaturalKey("img1") == [Text("img"), Num(1), Text("")]
    ensures NaturalKey("img2") == [Text("img"), Num(2), Text("")]
    ensures NaturalKey("img10") == [Text("img"), Num(10), Text("")]
  {
    assert "img1" == "img" + "1" && "img2" == "img" + "2" && "img10" == "img" + "10";
    assert Lower("img") == "img";
    KeyOfStemAndNumber("img", "1");
    KeyOfStemAndNumber("img", "2");
    KeyOfStemAndNumber("img", "10");
    assert DecimalValue("1") == 1 by { assert "1"[..0] == ""; }
    assert DecimalValue("2") == 2 by { assert "2"[..0] == ""; }
    assert DecimalValue("10") == 10 by { assert "10"[..1] == "1"; assert "1"[..0] == ""; }
  }

  /**
   * Keys that agree up to a number chunk compare by that number, whatever
   * follows it: `p + [m] + q` comes before `p + [n] + q'` when `m < n`.
   */
  lemma {:induction false} NumberDecides(p: seq<Chunk>, m: nat, n: nat, q: seq<Chunk>, q': seq<Chunk>)
    requires m < n
    ensures KeyLe(p + [Num(m)] + q, p + [Num(n)] + q')
    ensures !KeyLe(p + [Num(n)] + q', p + [Num(m)] + q)
    decreases |p|
  {
    var a, b := p + [Num(m)] + q, p + [Num(n)] + q';
    if |p| == 0 {
      assert a[0] == Num(m) && b[0] == Num(n);
      assert ChunkLt(Num(m), Num(n)) && !ChunkLt(Num(n), Num(m));
    } else {
      NumberDecides(p[1..], m, n, q, q');
      assert a[0] == p[0] == b[0];
      assert a[1..] == p[1..] + [Num(m)] + q;
      assert b[1..] == p[1..] + [Num(n)] + q';
      assert !ChunkLt(p[0], p[0]);
    }
  }

  lemma NameLeVia(a: string, b: string, ka: seq<Chunk>, kb: seq<Chunk>)
    requires NaturalKey(a) == ka && NaturalKey(b) == kb
    ensures NameLe(a, b) == KeyLe(ka, kb)
  {
  }

  lemma ImgTenAfterTwoAsText() ensures StrLe("img10", "img2")
  {
    assert "img10"[1..][1..][1..] == "10" && "img2"[1..][1..][1..] == "2";
  }

  /** `img1`, `img2`, `img10` are in natural order (not the order of plain string comparison). */
  lemma NaturalOrderExample()
    ensures NameLe("img1", "img2") && !NameLe("img2", "img1")
    ensures NameLe("img2", "img10") && !NameLe("img10", "img2")
    ensures NameLe("img1", "img10") && !NameLe("img10", "img1")
    ensures StrLe("img10", "img2")
  {
    ExampleKeys();
    var k1, k2, k10 := [Text("img"), Num(1), Text("")], [Text("img"), Num(2), Text("")], [Text("img"), Num(10), Text("")];
    assert k1 == [Text("img")] + [Num(1)] + [Text("")];
    assert k2 == [Text("img")] + [Num(2)] + [Text("")];
    assert k10 == [Text("img")] + [Num(10)] + [Text("")];
    NumberDecides([Text("img")], 1, 2, [Text("")], [Text("")]);
    NumberDecides([Text("img")], 2, 10, [Text("")], [Text("")]);
    NumberDecides([Text("img")], 1, 10, [Text("")], [Text("")]);
    NameLeVia("img1", "img2", k1, k2);
    NameLeVia("img2", "img1", k2, k1);
    NameLeVia("img2", "img10", k2, k10);
    NameLeVia("img10", "img2", k10, k2);
    NameLeVia("img1", "img10", k1, k10);
    NameLeVia("img10", "img1", k10, k1);
    ImgTenAfterTwoAsText();
  }

  /** `sorted(["img2", "img10", "img1"], key=natural_key)`. */
  lemma NaturalSortExample()
    ensures SortBy(["img2", "img10", "img1"], NameLe) == ["img1", "img2", "img10"]
  {
    NaturalOrderExample();
    SortThree("img2", "img10", "img1", NameLe);
  }

  lemma SortThree<T>(a: T, b: T, c: T, le: (T, T) -> bool)
    requires le(a, b) && !le(b, c) && !le(a, c)
    ensures SortBy([a, b, c], le) == [c, a, b]
  {
    SortTwo(a, b, le);
    var s := [a, b, c];
    assert s[..2] == [a, b];
    assert SortBy(s, le) == Insert([a, b], c, le);
    InsertFront(a, b, c, le);
  }

  lemma InsertFront<T>(a: T, b: T, c: T, le: (T, T) -> bool)
    requires !le(b, c) && !le(a, c)
    ensures Insert([a, b], c, le) == [c, a, b]
  {
    assert [a, b][..1] == [a] && [a][..0] == [];
    assert Insert([a], c, le) == [c, a];
    assert Insert([a, b], c, le) == [c, a] + [b];
  }

  lemma SortTwo<T>(a: T, b: T, le: (T, T) -> bool)
    requires le(a, b)
    ensures SortBy([a, b], le) == [a, b]
  {
    assert [a, b][..1] == [a];
    assert SortBy([a], le) == [a] by {
      assert [a][..0] == [];
    }
  }
}
