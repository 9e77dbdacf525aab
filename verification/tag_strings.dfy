/**
 * The tag-string codec of the tagged behaviour: a record keeps its tags as one
 * comma-separated string; `ParseTags` turns it into a sequence of names,
 * `FormatTags` turns a sequence back into a string, and `Difference` is the
 * order-keeping, duplicate-keeping difference used to decide what to add and
 * what to remove.
 */
module TagStrings {

  /**
   * The whitespace characters that both trimming and the separator pattern
   * skip: space, tab, line feed, carriage return and vertical tab.
   */
  predicate IsSpace(c: char) {
    c == ' ' || c == '\t' || c == '\n' || c == '\r' || c == '\U{000B}'
  }

  /** Every character of `s[lo..hi]` is whitespace. */
  predicate SpaceBetween(s: string, lo: int, hi: int)
    requires 0 <= lo <= hi <= |s|
  {
    forall j :: lo <= j < hi ==> IsSpace(s[j])
  }

  predicate AllSpace(s: string) {
    SpaceBetween(s, 0, |s|)
  }

  /** No whitespace at either end (the empty string qualifies). */
  predicate NoEdgeSpace(s: string) {
    |s| == 0 || (!IsSpace(s[0]) && !IsSpace(s[|s| - 1]))
  }

  /** A tag name as the parser produces it: non-empty, comma-free, trimmed. */
  predicate WellFormed(name: string) {
    |name| > 0 && ',' !in name && NoEdgeSpace(name)
  }

  /** Only separators and whitespace: the strings that hold no tag at all. */
  predicate Blank(s: string) {
    forall j :: 0 <= j < |s| ==> s[j] == ',' || IsSpace(s[j])
  }

  /** The first position at or after `i` that holds no whitespace, or `|s|`. */
  function SkipSpace(s: string, i: nat): (r: nat)
    requires i <= |s|
    ensures i <= r <= |s|
    ensures SpaceBetween(s, i, r)
    ensures r < |s| ==> !IsSpace(s[r])
    decreases |s| - i
  {
    if i < |s| && IsSpace(s[i]) then SkipSpace(s, i + 1) else i
  }

  /**
   * The start of the run of whitespace that ends at `i`, not going below
   * `lo`: every position from the result up to `i` is whitespace, and the
   * one just before it (if it is not below `lo`) is not.
   */
  function BackSpace(s: string, lo: nat, i: nat): (r: nat)
    requires lo <= i <= |s|
    ensures lo <= r <= i
    ensures SpaceBetween(s, r, i)
    ensures lo < r ==> !IsSpace(s[r - 1])
    decreases i
  {
    if lo < i && IsSpace(s[i - 1]) then BackSpace(s, lo, i - 1) else i
  }

  /** PHP `trim`: whitespace removed from both ends. */
  function Trim(s: string): (r: string)
    ensures NoEdgeSpace(r)
    ensures |r| == 0 <==> AllSpace(s)
    ensures NoEdgeSpace(s) ==> r == s
    ensures exists lo :: 0 <= lo <= |s| - |r| && r == s[lo..lo + |r|]
                         && SpaceBetween(s, 0, lo) && SpaceBetween(s, lo + |r|, |s|)
  {
    var lo := SkipSpace(s, 0);
    var t := s[lo..];
    var hi := BackSpace(t, 0, |t|);
    var r := t[..hi];
    assert r == s[lo..lo + hi];
    assert SpaceBetween(s, lo + hi, |s|) by {
      forall j | lo + hi <= j < |s|
        ensures IsSpace(s[j])
      {
        assert s[j] == t[j - lo];
      }
    }
    r
  }

  /** Position of the first comma at or after `i`, or `|s|` when there is none. */
  function FindComma(s: string, i: nat): (c: nat)
    requires i <= |s|
    ensures i <= c <= |s|
    ensures c < |s| ==> s[c] == ','
    ensures forall j :: i <= j < c ==> s[j] != ','
    decreases |s| - i
  {
    if i == |s| || s[i] == ',' then i else FindComma(s, i + 1)
  }

  /**
   * `preg_split` on the pattern `\s*,\s*` without the empty-piece filter,
   * applied to `s[i..]`: the text up to the next separator, then the pieces
   * after it. A separator takes the whitespace before its comma (back to `i`
   * at most) and all the whitespace after it.
   */
  function SplitFrom(s: string, i: nat): (pieces: seq<string>)
    requires i <= |s|
    ensures |pieces| > 0
    ensures forall k :: 0 <= k < |pieces| ==> ',' !in pieces[k]
    ensures NoEdgeSpace(s) && (i == |s| || !IsSpace(s[i])) ==>
              forall k :: 0 <= k < |pieces| ==> NoEdgeSpace(pieces[k])
    decreases |s| - i
  {
    var c := FindComma(s, i);
    if c == |s| then [s[i..]]
    else [s[i..BackSpace(s, i, c)]] + SplitFrom(s, SkipSpace(s, c + 1))
  }

  /** `s[p..e]` is one occurrence of the separator `\s*,\s*`, with its comma at `c`. */
  predicate SeparatorAt(s: string, p: int, c: int, e: int) {
    && 0 <= p <= c < e <= |s|
    && s[c] == ','
    && SpaceBetween(s, p, c)
    && SpaceBetween(s, c + 1, e)
  }

  /**
   * The cut `SplitFrom` makes is the one a backtracking regular-expression
   * engine makes when it searches from `i`: the leftmost occurrence of the
   * separator, extended as far as the greedy whitespace repetition reaches.
   */
  lemma SplitCutsAtLeftmostLongestSeparator(s: string, i: nat)
    requires i <= |s| && FindComma(s, i) < |s|
    ensures var c := FindComma(s, i);
            SeparatorAt(s, BackSpace(s, i, c), c, SkipSpace(s, c + 1))
    ensures var c := FindComma(s, i);
            forall p, c', e :: i <= p && SeparatorAt(s, p, c', e) ==> BackSpace(s, i, c) <= p
    ensures var c := FindComma(s, i);
            forall c', e :: SeparatorAt(s, BackSpace(s, i, c), c', e) ==> c' == c && e <= SkipSpace(s, c + 1)
  {
  }

  /** Every piece is the empty string. */
  predicate AllEmpty(pieces: seq<string>) {
    forall k :: 0 <= k < |pieces| ==> |pieces[k]| == 0
  }

  /** No piece is the empty string. */
  predicate NoneEmpty(pieces: seq<string>) {
    forall k :: 0 <= k < |pieces| ==> |pieces[k]| > 0
  }

  lemma AllEmptyCons(head: string, tail: seq<string>)
    ensures AllEmpty([head] + tail) <==> |head| == 0 && AllEmpty(tail)
  {
    var pieces := [head] + tail;
    assert pieces[0] == head;
    assert forall k :: 0 <= k < |tail| ==> tail[k] == pieces[k + 1];
  }

  /** `PREG_SPLIT_NO_EMPTY`: the empty pieces are dropped, the rest kept in order. */
  function DropEmpty(pieces: seq<string>): (r: seq<string>)
    ensures NoneEmpty(r)
    ensures forall x :: x in r <==> x in pieces && |x| > 0
  {
    if |pieces| == 0 then []
    else
      var rest := DropEmpty(pieces[1..]);
      assert pieces == [pieces[0]] + pieces[1..];
      (if |pieces[0]| == 0 then [] else [pieces[0]]) + rest
  }

  /** A non-empty list is its head followed by its tail. */
  lemma HeadTail(pieces: seq<string>)
    requires |pieces| > 0
    ensures [pieces[0]] + pieces[1..] == pieces
  {
  }

  /** The filter on a non-empty list: its head, if not empty, then the filtered tail. */
  lemma DropEmptyCons(pieces: seq<string>)
    requires |pieces| > 0
    ensures DropEmpty(pieces) == (if |pieces[0]| == 0 then [] else [pieces[0]]) + DropEmpty(pieces[1..])
  {
  }

  /** Nothing is dropped from a list without empty pieces. */
  lemma {:induction false} DropEmptyKeepsNonEmpty(pieces: seq<string>)
    requires NoneEmpty(pieces)
    ensures DropEmpty(pieces) == pieces
  {
    if |pieces| > 0 {
      assert |pieces[0]| > 0;
      assert NoneEmpty(pieces[1..]) by {
        forall k | 0 <= k < |pieces[1..]|
          ensures |pieces[1..][k]| > 0
        {
          assert pieces[1..][k] == pieces[k + 1];
        }
      }
      DropEmptyKeepsNonEmpty(pieces[1..]);
      DropEmptyCons(pieces);
      HeadTail(pieces);
    }
  }

  /** Everything is dropped exactly when every piece is empty. */
  lemma {:induction false} DropEmptyNothingLeft(pieces: seq<string>)
    ensures DropEmpty(pieces) == [] <==> AllEmpty(pieces)
  {
    if |pieces| > 0 {
      DropEmptyNothingLeft(pieces[1..]);
      DropEmptyCons(pieces);
      HeadTail(pieces);
      AllEmptyCons(pieces[0], pieces[1..]);
    }
  }

  /**
   * The filter keeps every non-empty piece as often as the split produced
   * it, so repeated names survive as repetitions.
   */
  lemma {:induction false} DropEmptyCounts(pieces: seq<string>)
    ensures forall x :: multiset(DropEmpty(pieces))[x] == if |x| > 0 then multiset(pieces)[x] else 0
  {
    if |pieces| > 0 {
      DropEmptyCounts(pieces[1..]);
      DropEmptyCons(pieces);
      HeadTail(pieces);
      assert multiset(pieces) == multiset{pieces[0]} + multiset(pieces[1..]);
    }
  }

  /**
   * The filter keeps order: it distributes over concatenation, so each kept
   * piece stays where it was relative to the others.
   */
  lemma {:induction false} DropEmptyOfConcat(a: seq<string>, b: seq<string>)
    ensures DropEmpty(a + b) == DropEmpty(a) + DropEmpty(b)
    decreases |a|
  {
    if |a| > 0 {
      var ab := a + b;
      assert ab[0] == a[0] && ab[1..] == a[1..] + b;
      DropEmptyCons(ab);
      DropEmptyCons(a);
      DropEmptyOfConcat(a[1..], b);
      Reassociate(if |a[0]| == 0 then [] else [a[0]], DropEmpty(a[1..]), DropEmpty(b));
    } else {
      assert a + b == b;
    }
  }

  /** `string2array`: trim, split on the separator, drop empty pieces. */
  function ParseTags(s: string): (names: seq<string>)
    ensures forall k :: 0 <= k < |names| ==> WellFormed(names[k])
    ensures forall x :: x in names ==> WellFormed(x)
  {
    DropEmpty(SplitFrom(Trim(s), 0))
  }

  /** `array2string`: the names joined with a comma and one space. */
  function FormatTags(names: seq<string>): (s: string)
    ensures |names| > 0 ==> |names[0]| <= |s| && s[..|names[0]|] == names[0]
    ensures (forall k :: 0 <= k < |names| ==> WellFormed(names[k])) ==> NoEdgeSpace(s)
  {
    if |names| == 0 then ""
    else if |names| == 1 then names[0]
    else names[0] + ", " + FormatTags(names[1..])
  }

  /** A well-formed name at position `|p|` with nothing after it is one piece. */
  lemma SplitLastName(p: string, x: string)
    requires WellFormed(x)
    ensures SplitFrom(p + x, |p|) == [x]
  {
    var s := p + x;
    forall j | |p| <= j < |s|
      ensures s[j] != ','
    {
      assert s[j] == x[j - |p|];
    }
    assert s[|p|..] == x;
  }

  /**
   * A well-formed name at position `|p|` followed by `", "` and a name: the
   * piece is the name, and the separator ends where the next name begins.
   */
  lemma SplitNameThenSeparator(p: string, x: string, rest: string)
    requires WellFormed(x)
    requires |rest| > 0 && !IsSpace(rest[0])
    ensures var s := p + x + ", " + rest;
            && FindComma(s, |p|) == |p| + |x|
            && BackSpace(s, |p|, |p| + |x|) == |p| + |x|
            && SkipSpace(s, |p| + |x| + 1) == |p| + |x| + 2
            && s[|p|..|p| + |x|] == x
  {
    var s := p + x + ", " + rest;
    forall j | |p| <= j < |p| + |x|
      ensures s[j] != ','
    {
      assert s[j] == x[j - |p|];
    }
    assert s[|p| + |x|] == ',';
    assert s[|p| + |x| - 1] == x[|x| - 1];
    assert s[|p| + |x| + 1] == ' ';
    assert s[|p| + |x| + 2] == rest[0];
    assert s[|p|..|p| + |x|] == x;
  }

  /** The first piece of a name followed by `", "` and more is that name. */
  lemma SplitFirstName(p: string, x: string, rest: string)
    requires WellFormed(x)
    requires |rest| > 0 && !IsSpace(rest[0])
    ensures var s := p + x + ", " + rest;
            SplitFrom(s, |p|) == [x] + SplitFrom(s, |p + x + ", "|)
  {
    SplitNameThenSeparator(p, x, rest);
  }

  /**
   * One step of splitting a formatted list: if the names after the first
   * come back from the text after the first separator, the whole list comes
   * back from the whole text.
   */
  lemma SplitFormattedStep(p: string, names: seq<string>)
    requires |names| > 1
    requires WellFormed(names[0]) && WellFormed(names[1])
    requires var q := p + names[0] + ", ";
             SplitFrom(q + FormatTags(names[1..]), |q|) == names[1..]
    ensures SplitFrom(p + FormatTags(names), |p|) == names
  {
    var x := names[0];
    var rest := FormatTags(names[1..]);
    var q := p + x + ", ";
    assert names[1..][0] == names[1];
    assert rest[0] == names[1][0];
    SplitFirstName(p, x, rest);
    assert FormatTags(names) == x + ", " + rest;
    Regroup(p, x, rest);
    assert names == [x] + names[1..];
  }

  /** Prepending to a joined pair regroups as joining onto the longer prefix. */
  lemma Regroup(p: string, x: string, rest: string)
    ensures p + (x + ", " + rest) == p + x + ", " + rest
  {
  }

  /** Splitting a formatted list, wherever it starts in `s`, gives the list back. */
  lemma {:induction false} SplitFormatted(p: string, names: seq<string>)
    requires |names| > 0
    requires forall k :: 0 <= k < |names| ==> WellFormed(names[k])
    ensures SplitFrom(p + FormatTags(names), |p|) == names
    decreases |names|
  {
    if |names| == 1 {
      SplitLastName(p, names[0]);
    } else {
      assert forall k :: 0 <= k < |names[1..]| ==> WellFormed(names[1..][k]) by {
        forall k | 0 <= k < |names[1..]|
          ensures WellFormed(names[1..][k])
        {
          assert names[1..][k] == names[k + 1];
        }
      }
      SplitFormatted(p + names[0] + ", ", names[1..]);
      SplitFormattedStep(p, names);
    }
  }

  /**
   * Round trip: formatting a list of well-formed names and parsing the result
   * gives the same list back, in the same order.
   */
  lemma {:induction false} ParseFormatRoundTrip(names: seq<string>)
    requires forall k :: 0 <= k < |names| ==> WellFormed(names[k])
    ensures ParseTags(FormatTags(names)) == names
  {
    var s := FormatTags(names);
    assert Trim(s) == s;
    if |names| > 0 {
      SplitFormatted("", names);
      assert "" + s == s;
      DropEmptyKeepsNonEmpty(names);
    }
  }

  /**
   * Parsing normalises: formatting what was parsed and parsing again changes
   * nothing.
   */
  lemma ParseFormatParse(s: string)
    ensures ParseTags(FormatTags(ParseTags(s))) == ParseTags(s)
  {
    ParseFormatRoundTrip(ParseTags(s));
  }

  /** `s[i..]` holds only separators and whitespace. */
  predicate BlankFrom(s: string, i: nat)
    requires i <= |s|
  {
    forall j :: i <= j < |s| ==> s[j] == ',' || IsSpace(s[j])
  }

  /**
   * A comma right at `i`, followed by whitespace up to `e`: the text from `i`
   * is blank exactly when the text from `e` is.
   */
  lemma BlankAfterSeparator(s: string, i: nat, e: nat)
    requires i < e <= |s| && s[i] == ',' && SpaceBetween(s, i + 1, e)
    ensures BlankFrom(s, i) <==> BlankFrom(s, e)
  {
  }

  /** The pieces of `s[i..]` are all empty exactly when `s[i..]` is blank. */
  lemma {:induction false} SplitAllEmptyIffBlank(s: string, i: nat)
    requires i <= |s|
    requires i == |s| || !IsSpace(s[i])
    ensures AllEmpty(SplitFrom(s, i)) <==> BlankFrom(s, i)
    decreases |s| - i
  {
    var c := FindComma(s, i);
    if c < |s| {
      var e := SkipSpace(s, c + 1);
      var b := BackSpace(s, i, c);
      SplitAllEmptyIffBlank(s, e);
      assert SplitFrom(s, i) == [s[i..b]] + SplitFrom(s, e);
      AllEmptyCons(s[i..b], SplitFrom(s, e));
      if c == i {
        BlankAfterSeparator(s, i, e);
      } else {
        assert i < b;
      }
    } else if i < |s| {
      assert |SplitFrom(s, i)[0]| > 0;
    }
  }

  lemma TrimKeepsBlank(s: string)
    ensures Blank(Trim(s)) <==> Blank(s)
  {
    var lo := SkipSpace(s, 0);
    var t := s[lo..];
    var hi := BackSpace(t, 0, |t|);
    assert Trim(s) == t[..hi];
    assert forall j :: lo <= j < |s| ==> s[j] == t[j - lo];
    if Blank(Trim(s)) {
      forall j | 0 <= j < |s|
        ensures s[j] == ',' || IsSpace(s[j])
      {
        if lo <= j < lo + hi {
          assert s[j] == t[..hi][j - lo];
        } else if lo + hi <= j {
          assert s[j] == t[j - lo];
        }
      }
    }
  }

  /**
   * A tag string parses to no names exactly when it holds nothing but commas
   * and whitespace; in particular the empty and the whitespace-only strings
   * parse to no names.
   */
  lemma ParseTagsEmptyIffBlank(s: string)
    ensures ParseTags(s) == [] <==> Blank(s)
  {
    var t := Trim(s);
    TrimKeepsBlank(s);
    SplitAllEmptyIffBlank(t, 0);
    DropEmptyNothingLeft(SplitFrom(t, 0));
  }

  /**
   * `array_values(array_diff(a, b))`: the elements of `a` that do not occur in
   * `b`, compared as strings, in the order of `a` and with repetitions kept.
   */
  function Difference(a: seq<string>, b: seq<string>): (r: seq<string>)
    ensures forall x :: x in r <==> x in a && x !in b
  {
    if |a| == 0 then []
    else
      assert a == [a[0]] + a[1..];
      (if a[0] in b then [] else [a[0]]) + Difference(a[1..], b)
  }

  /** Each value the difference keeps occurs in it as often as in the first list. */
  lemma {:induction false} DifferenceCounts(a: seq<string>, b: seq<string>)
    ensures forall x :: multiset(Difference(a, b))[x] == if x in b then 0 else multiset(a)[x]
  {
    if |a| > 0 {
      DifferenceCounts(a[1..], b);
      var head := if a[0] in b then [] else [a[0]];
      assert Difference(a, b) == head + Difference(a[1..], b);
      assert a == [a[0]] + a[1..];
      assert multiset(a) == multiset{a[0]} + multiset(a[1..]);
    }
  }

  /** The difference of a non-empty list: its head, if kept, then the difference of its tail. */
  lemma DifferenceCons(a: seq<string>, b: seq<string>)
    requires |a| > 0
    ensures Difference(a, b) == (if a[0] in b then [] else [a[0]]) + Difference(a[1..], b)
  {
  }

  /** Concatenation is associative. */
  lemma Reassociate(x: seq<string>, y: seq<string>, z: seq<string>)
    ensures x + (y + z) == (x + y) + z
  {
  }

  /**
   * The difference keeps order: it distributes over concatenation, so each
   * kept element stays where it was relative to the others.
   */
  lemma {:induction false} DifferenceOfConcat(a1: seq<string>, a2: seq<string>, b: seq<string>)
    ensures Difference(a1 + a2, b) == Difference(a1, b) + Difference(a2, b)
    decreases |a1|
  {
    if |a1| > 0 {
      var a := a1 + a2;
      assert a[0] == a1[0] && a[1..] == a1[1..] + a2;
      DifferenceCons(a, b);
      DifferenceCons(a1, b);
      DifferenceOfConcat(a1[1..], a2, b);
      Reassociate(if a1[0] in b then [] else [a1[0]], Difference(a1[1..], b), Difference(a2, b));
    } else {
      assert a1 + a2 == a2;
    }
  }

  /** Taking away nothing leaves the list exactly as it was. */
  lemma {:induction false} DifferenceOfNothing(a: seq<string>)
    ensures Difference(a, []) == a
  {
    if |a| > 0 {
      DifferenceOfNothing(a[1..]);
      assert Difference(a, []) == [a[0]] + Difference(a[1..], []);
      assert a == [a[0]] + a[1..];
    }
  }

  /** Taking away a superset of the list's names leaves nothing. */
  lemma {:induction false} DifferenceOfCovered(a: seq<string>, b: seq<string>)
    requires forall x :: x in a ==> x in b
    ensures Difference(a, b) == []
  {
    if |a| > 0 {
      assert a[0] in a;
      assert forall x :: x in a[1..] ==> x in a;
      DifferenceOfCovered(a[1..], b);
    }
  }
}
