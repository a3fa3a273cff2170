/** The checklist heuristic of the rule extractor: every line of the text is
    stripped; short lines and lines that mention a page ("sayfa") are
    skipped; a line that opens with a list marker
        ^(\d+\.|-|\*|•)\s+
    contributes what follows the marker, and any other line that names a
    kind of document contributes itself. */
module Checklist {
  import opened Text
  import opened Regex
  import opened Lines

  const Bullets: seq<string> := ["-", "*", "•"]
  const Vocabulary: seq<string> := ["belge", "form", "dilekçe", "bordro", "banka", "rezervasyon", "sigorta"]
  const Placeholder: string := "Otomatik liste çıkarılamadı. Lütfen metni kontrol edin."

  /** `\s+` spans `l[p..e]`. */
  predicate SpacesOk(l: string, p: nat, e: nat)
  {
    p < e && AllIn(l, p, e, IsSpace)
  }

  /** `\d+\.\s+` spans `l[..e]`. */
  ghost predicate NumberedOk(l: string, e: nat)
  {
    exists d: nat :: 0 < d && AllIn(l, 0, d, IsDigit) && CiLitAt(l, d, ".") && SpacesOk(l, d + 1, e)
  }

  /** `(-|\*|•)\s+` spans `l[..e]`. */
  ghost predicate BulletedOk(l: string, e: nat)
  {
    exists p: nat :: AltAt(l, 0, Bullets, p) && SpacesOk(l, p, e)
  }

  /** `(\d+\.|-|\*|•)\s+` spans `l[..e]`. The pattern is compiled without
      IGNORECASE; for these symbols ignoring case changes nothing
      (`MarkerSymbolsExact`). */
  ghost predicate MarkerOk(l: string, e: nat)
  {
    NumberedOk(l, e) || BulletedOk(l, e)
  }

  /** `\s+`, greedy, ending the pattern. */
  function TrailingSpaces(l: string): Cont<nat>
  {
    (p: nat) => Star(l, p, IsSpace, 1, |l|, Done)
  }

  /** The trailing `\s+` stops only at the end of the line or at a character
      that is not white space. */
  lemma TrailingSpacesGreedy(l: string, p: nat)
    requires TrailingSpaces(l)(p).Some?
    ensures TrailingSpaces(l)(p).value == |l| || !IsSpace(l[TrailingSpaces(l)(p).value])
  {
    var r := Star(l, p, IsSpace, 1, |l|, Done);
    assert r == TrailingSpaces(l)(p);
    var e: nat :| StarStep(l, p, IsSpace, 1, |l|, e) && r == Done(e);
    assert IsSpace(l[p]);
    StarGreedy(l, p, IsSpace, 1, |l|, Done);
  }

  /** `\.\s+` from each position. */
  function Dot(l: string): Cont<nat>
  {
    (d: nat) => Lit(l, d, ".", TrailingSpaces(l))
  }

  /** The first alternative, `\d+\.\s+`, at the start of `l`. */
  function Numbered(l: string): (r: Option<nat>)
    ensures r.Some? ==> NumberedOk(l, r.value)
    ensures forall e: nat :: NumberedOk(l, e) ==> r.Some?
    ensures r.Some? ==> exists p: nat :: r == TrailingSpaces(l)(p)
  {
    NumberedSound(l);
    NumberedComplete(l);
    Star(l, 0, IsDigit, 1, |l|, Dot(l))
  }

  lemma NumberedSound(l: string)
    ensures var r := Star(l, 0, IsDigit, 1, |l|, Dot(l));
            r.Some? ==> NumberedOk(l, r.value) && exists p: nat :: r == TrailingSpaces(l)(p)
  {
    var r := Star(l, 0, IsDigit, 1, |l|, Dot(l));
    if r.Some? {
      var d: nat :| StarStep(l, 0, IsDigit, 1, |l|, d) && r == Dot(l)(d);
      var s := TrailingSpaces(l)(d + 1);
      assert r == s;
      var u := Star(l, d + 1, IsSpace, 1, |l|, Done);
      assert s == u;
      var e: nat :| StarStep(l, d + 1, IsSpace, 1, |l|, e) && u == Done(e);
      assert SpacesOk(l, d + 1, e);
    }
  }

  lemma NumberedComplete(l: string)
    ensures forall e: nat :: NumberedOk(l, e) ==> Star(l, 0, IsDigit, 1, |l|, Dot(l)).Some?
  {
    forall e: nat | NumberedOk(l, e)
      ensures Star(l, 0, IsDigit, 1, |l|, Dot(l)).Some?
    {
      var d: nat :| 0 < d && AllIn(l, 0, d, IsDigit) && CiLitAt(l, d, ".") && SpacesOk(l, d + 1, e);
      assert StarStep(l, d + 1, IsSpace, 1, |l|, e) && TrailingSpaces(l)(d + 1).Some?;
      assert StarStep(l, 0, IsDigit, 1, |l|, d) && Dot(l)(d).Some?;
    }
  }

  /** The other alternatives, `(-|\*|•)\s+`, at the start of `l`. */
  function Bulleted(l: string): (r: Option<nat>)
    ensures r.Some? ==> BulletedOk(l, r.value)
    ensures forall e: nat :: BulletedOk(l, e) ==> r.Some?
    ensures r.Some? ==> exists p: nat :: r == TrailingSpaces(l)(p)
  {
    BulletedSound(l);
    BulletedComplete(l);
    Alt(l, 0, Bullets, TrailingSpaces(l))
  }

  lemma BulletedSound(l: string)
    ensures var r := Alt(l, 0, Bullets, TrailingSpaces(l));
            r.Some? ==> BulletedOk(l, r.value) && exists p: nat :: r == TrailingSpaces(l)(p)
  {
    var r := Alt(l, 0, Bullets, TrailingSpaces(l));
    if r.Some? {
      var p: nat :| AltAt(l, 0, Bullets, p) && r == TrailingSpaces(l)(p);
      var u := Star(l, p, IsSpace, 1, |l|, Done);
      assert r == u;
      var e: nat :| StarStep(l, p, IsSpace, 1, |l|, e) && u == Done(e);
      assert SpacesOk(l, p, e);
    }
  }

  lemma BulletedComplete(l: string)
    ensures forall e: nat :: BulletedOk(l, e) ==> Alt(l, 0, Bullets, TrailingSpaces(l)).Some?
  {
    forall e: nat | BulletedOk(l, e)
      ensures Alt(l, 0, Bullets, TrailingSpaces(l)).Some?
    {
      var p: nat :| AltAt(l, 0, Bullets, p) && SpacesOk(l, p, e);
      assert StarStep(l, p, IsSpace, 1, |l|, e) && TrailingSpaces(l)(p).Some?;
    }
  }

  /** `re.match(r"^(\d+\.|-|\*|•)\s+", l)`: the end of the match; the
      numbered form is tried first. */
  function MarkerEnd(l: string): (r: Option<nat>)
    ensures r.Some? ==> MarkerOk(l, r.value)
    ensures forall e: nat :: MarkerOk(l, e) ==> r.Some?
    ensures r.Some? ==> exists p: nat :: r == TrailingSpaces(l)(p)
  {
    match Numbered(l)
    case Some(e) => Some(e)
    case None => Bulleted(l)
  }

  /** The symbols of the marker match only themselves, whatever the case. */
  lemma MarkerSymbolsExact(l: string, i: nat)
    ensures CiLitAt(l, i, ".") <==> i < |l| && l[i] == '.'
    ensures CiLitAt(l, i, "-") <==> i < |l| && l[i] == '-'
    ensures CiLitAt(l, i, "*") <==> i < |l| && l[i] == '*'
    ensures CiLitAt(l, i, "•") <==> i < |l| && l[i] == '•'
  {
    CiLitAtSymbol(l, i, '.');
    CiLitAtSymbol(l, i, '-');
    CiLitAtSymbol(l, i, '*');
    CiLitAtSymbol(l, i, '•');
  }

  /** `\s+` takes every white-space character after the marker symbol, so
      what `re.sub` leaves does not begin with white space. */
  lemma MarkerGreedy(l: string)
    requires MarkerEnd(l).Some?
    ensures MarkerEnd(l).value == |l| || !IsSpace(l[MarkerEnd(l).value])
  {
    var r := MarkerEnd(l);
    var p: nat :| r == TrailingSpaces(l)(p);
    TrailingSpacesGreedy(l, p);
  }

  /** Python's `any(x in l.lower() for x in [...])` over the document words. */
  predicate MentionsDocument(l: string)
  {
    exists j | 0 <= j < |Vocabulary| :: Occurs(LowerStr(l), Vocabulary[j])
  }

  /** What one raw line contributes to the checklist, if anything: a piece
      from the end of the stripped line, which is at least five characters
      long and does not mention "sayfa". */
  function ItemOf(line: string): (r: Option<string>)
    ensures r.Some? ==> |Strip(line)| >= 5 && !Occurs(LowerStr(Strip(line)), "sayfa")
    ensures r.Some? ==> exists e: nat :: e <= |Strip(line)| && r.value == Strip(line)[e..]
  {
    var l := Strip(line);
    if |l| < 5 || Occurs(LowerStr(l), "sayfa") then None
    else match MarkerEnd(l)
      case Some(e) =>
        MarkerEndsInSpace(l, e);
        Some(l[e..])
      case None =>
        assert l == l[0..];
        if MentionsDocument(l) then Some(l) else None
  }

  /** A marker ends with the white space after its symbol. */
  lemma MarkerEndsInSpace(l: string, e: nat)
    requires MarkerOk(l, e)
    ensures 0 < e <= |l| && IsSpace(l[e - 1])
  {
    if NumberedOk(l, e) {
      var d: nat :| 0 < d && AllIn(l, 0, d, IsDigit) && CiLitAt(l, d, ".") && SpacesOk(l, d + 1, e);
    } else {
      var p: nat :| AltAt(l, 0, Bullets, p) && SpacesOk(l, p, e);
    }
  }

  /** What a checklist entry looks like: a non-empty single line, without
      white space at either end, that does not mention a page. */
  predicate Entry(x: string)
  {
    |x| > 0 && Stripped(x) && OneLine(x) && !Occurs(LowerStr(x), "sayfa")
  }

  /** A line is kept exactly when, once stripped, it is at least five
      characters long, does not mention "sayfa", and either opens with a list
      marker or names a kind of document. */
  lemma ItemSelection(line: string)
    ensures var l := Strip(line);
            ItemOf(line).Some? <==>
              |l| >= 5 && !Occurs(LowerStr(l), "sayfa") && ((exists e: nat :: MarkerOk(l, e)) || MentionsDocument(l))
  {
    var l := Strip(line);
    if MarkerEnd(l).Some? {
      MarkerEndsInSpace(l, MarkerEnd(l).value);
    }
  }

  /** What is left of an entry-like line once a prefix that ends before its
      last character is cut off, up to a character that is not white space,
      is again entry-like. */
  lemma SuffixEntry(l: string, e: nat)
    requires Entry(l) && e < |l| && !IsSpace(l[e])
    ensures Entry(l[e..])
  {
    var x := l[e..];
    assert x[0] == l[e] && x[|x| - 1] == l[|l| - 1];
    assert OneLine(x) by {
      forall k | 0 <= k < |x|
        ensures x[k] != '\n'
      {
        assert x[k] == l[e + k];
      }
    }
    if Occurs(LowerStr(x), "sayfa") {
      LowerStrSlice(l, e, |l|);
      assert l[e..|l|] == x;
      OccursInSlice(LowerStr(l), e, |l|, "sayfa");
    }
  }

  /** Stripping a single line gives a single line without white space at its ends. */
  lemma StripOneLine(line: string)
    requires OneLine(line)
    ensures OneLine(Strip(line)) && Stripped(Strip(line))
  {
    var l := Strip(line);
    StripShape(line);
    var a: nat, b: nat :| a <= b <= |line| && l == line[a..b];
    forall k | 0 <= k < |l|
      ensures l[k] != '\n'
    {
      assert l[k] == line[a + k];
    }
  }

  /** A kept line yields a checklist entry taken from the end of the stripped
      line: after the marker and the white space that follows it when there
      is a marker, and the whole stripped line otherwise. */
  lemma ItemShape(line: string)
    requires OneLine(line)
    requires ItemOf(line).Some?
    ensures Entry(ItemOf(line).value)
    ensures var l := Strip(line);
            || (exists e: nat :: MarkerOk(l, e) && ItemOf(line).value == l[e..])
            || ((forall e: nat :: !MarkerOk(l, e)) && ItemOf(line).value == l)
  {
    var l := Strip(line);
    StripOneLine(line);
    assert Entry(l);
    match MarkerEnd(l)
    case Some(e) =>
      MarkerEndsInSpace(l, e);
      MarkerGreedy(l);
      assert ItemOf(line) == Some(l[e..]);
      SuffixEntry(l, e);
    case None =>
  }

  /** `f` applied to every element of `xs` in order, keeping the results
      that are present. */
  function FilterMap<A, B>(f: A -> Option<B>, xs: seq<A>): seq<B>
    decreases |xs|
  {
    if |xs| == 0 then []
    else
      var head := match f(xs[0]) case Some(y) => [y] case None => [];
      head + FilterMap(f, xs[1..])
  }

  /** The checklist items of the lines, in line order. */
  function Collect(ls: seq<string>): seq<string>
  {
    FilterMap(ItemOf, ls)
  }

  /** Filtering is done element by element: the results for two stretches
      are those of the first followed by those of the second. */
  lemma {:induction false} FilterMapAppend<A, B>(f: A -> Option<B>, a: seq<A>, b: seq<A>)
    ensures FilterMap(f, a + b) == FilterMap(f, a) + FilterMap(f, b)
    decreases |a|
  {
    if |a| > 0 {
      FilterMapAppend(f, a[1..], b);
      assert (a + b)[0] == a[0] && (a + b)[1..] == a[1..] + b;
      var head := match f(a[0]) case Some(y) => [y] case None => [];
      assert FilterMap(f, a + b) == head + FilterMap(f, a[1..] + b);
      assert FilterMap(f, a) == head + FilterMap(f, a[1..]);
    } else {
      assert a + b == b;
    }
  }

  /** Every result comes from an element, every element with a result
      contributes it, and there are no results exactly when no element has
      one. */
  lemma {:induction false} FilterMapItems<A, B>(f: A -> Option<B>, xs: seq<A>)
    ensures |FilterMap(f, xs)| <= |xs|
    ensures forall k :: 0 <= k < |FilterMap(f, xs)| ==> exists j :: 0 <= j < |xs| && f(xs[j]) == Some(FilterMap(f, xs)[k])
    ensures forall j :: 0 <= j < |xs| && f(xs[j]).Some? ==> f(xs[j]).value in FilterMap(f, xs)
    ensures FilterMap(f, xs) == [] <==> forall j :: 0 <= j < |xs| ==> f(xs[j]).None?
    decreases |xs|
  {
    if |xs| > 0 {
      FilterMapItems(f, xs[1..]);
      var head := match f(xs[0]) case Some(y) => [y] case None => [];
      var r := FilterMap(f, xs);
      assert r == head + FilterMap(f, xs[1..]);
      forall k | 0 <= k < |r|
        ensures exists j :: 0 <= j < |xs| && f(xs[j]) == Some(r[k])
      {
        if k < |head| {
          assert f(xs[0]) == Some(r[k]);
        } else {
          var j :| 0 <= j < |xs[1..]| && f(xs[1..][j]) == Some(FilterMap(f, xs[1..])[k - |head|]);
          assert f(xs[j + 1]) == Some(r[k]);
        }
      }
      forall j | 0 <= j < |xs| && f(xs[j]).Some?
        ensures f(xs[j]).value in r
      {
        if j > 0 {
          assert xs[j] == xs[1..][j - 1];
        }
      }
      if forall j :: 0 <= j < |xs| ==> f(xs[j]).None? {
        forall j | 0 <= j < |xs[1..]|
          ensures f(xs[1..][j]).None?
        {
          assert xs[1..][j] == xs[j + 1];
        }
      }
    }
  }

  /** The items of single lines are checklist entries. */
  lemma CollectEntries(ls: seq<string>)
    requires forall j :: 0 <= j < |ls| ==> OneLine(ls[j])
    ensures forall k :: 0 <= k < |Collect(ls)| ==> Entry(Collect(ls)[k])
  {
    FilterMapItems(ItemOf, ls);
    forall k | 0 <= k < |Collect(ls)|
      ensures Entry(Collect(ls)[k])
    {
      var j :| 0 <= j < |ls| && ItemOf(ls[j]) == Some(Collect(ls)[k]);
      ItemShape(ls[j]);
    }
  }

  /** The items of two texts joined by a newline are the items of the first
      followed by those of the second. */
  lemma CollectJoined(a: string, b: string)
    ensures Collect(Split(a + "\n" + b)) == Collect(Split(a)) + Collect(Split(b))
  {
    SplitAppend(a, b);
    FilterMapAppend(ItemOf, Split(a), Split(b));
  }

  /** `analyze_checklist_items`: the items of the lines of `text`, or the
      placeholder when there are none. */
  function AnalyzeChecklistItems(text: string): (r: seq<string>)
    ensures |r| >= 1
    ensures r == [Placeholder] || forall k :: 0 <= k < |r| ==> Entry(r[k])
    ensures (forall j :: 0 <= j < |Split(text)| ==> ItemOf(Split(text)[j]).None?) ==> r == [Placeholder]
    ensures (exists j :: 0 <= j < |Split(text)| && ItemOf(Split(text)[j]).Some?) ==> r == Collect(Split(text))
  {
    var items := Collect(Split(text));
    FilterMapItems(ItemOf, Split(text));
    SplitOneLine(text);
    CollectEntries(Split(text));
    if items == [] then [Placeholder] else items
  }
}
