/** The passport-validity pattern of the rule extractor,
        (pasaport|travel document).*?(en az|geçerli).*?(\d+\s*ay|\d+\s*yıl)
    searched with IGNORECASE. The declarative predicates read the pattern as
    a language (concatenation is "there is a split point"); the functions
    run it the way the backtracking engine does. */
module Passport {
  import opened Text
  import opened Regex

  const Keys: seq<string> := ["pasaport", "travel document"]
  const Validity: seq<string> := ["en az", "geçerli"]
  const Units: seq<string> := ["ay", "yıl"]

  /** `\d+\s*(ay|yıl)` spans `t[p..e]`. */
  ghost predicate DurationOk(t: string, p: nat, e: nat)
  {
    exists d: nat, s: nat :: p < d && AllIn(t, p, d, IsDigit) && AllIn(t, d, s, IsSpace) && AltAt(t, s, Units, e)
  }

  /** `.*?(\d+\s*ay|\d+\s*yıl)` spans `t[w..e]`. */
  ghost predicate DurationAfter(t: string, w: nat, e: nat)
  {
    exists p: nat :: Gap(t, w, p) && DurationOk(t, p, e)
  }

  /** `.*?(en az|geçerli).*?(\d+\s*ay|\d+\s*yıl)` spans `t[k..e]`. */
  ghost predicate ValidityAfter(t: string, k: nat, e: nat)
  {
    exists v: nat, w: nat :: Gap(t, k, v) && AltAt(t, v, Validity, w) && DurationAfter(t, w, e)
  }

  /** The whole pattern matches exactly `t[i..e]`. */
  ghost predicate Valid(t: string, i: nat, e: nat)
  {
    exists k: nat :: AltAt(t, i, Keys, k) && ValidityAfter(t, k, e)
  }

  /** `\d+\s*<unit>` from `p`, greedy with backtracking; the end of the match. */
  function DigitsThenUnit(t: string, p: nat, unit: string): (r: Option<nat>)
    ensures r.Some? ==> exists d: nat, s: nat :: p < d && AllIn(t, p, d, IsDigit) && AllIn(t, d, s, IsSpace)
                                                 && CiLitAt(t, s, unit) && r.value == s + |unit|
    ensures forall d: nat, s: nat ::
              (p < d && AllIn(t, p, d, IsDigit) && AllIn(t, d, s, IsSpace) && CiLitAt(t, s, unit)) ==> r.Some?
  {
    DigitsThenUnitSound(t, p, unit);
    DigitsThenUnitComplete(t, p, unit);
    Star(t, p, IsDigit, 1, |t|, SpacesThenUnit(t, unit))
  }

  /** The unit literal from each position, ending the match. */
  function Unit(t: string, unit: string): Cont<nat>
  {
    (s: nat) => Lit(t, s, unit, Done)
  }

  /** `\s*<unit>` from each position. */
  function SpacesThenUnit(t: string, unit: string): Cont<nat>
  {
    (d: nat) => Star(t, d, IsSpace, 0, |t|, Unit(t, unit))
  }

  lemma DigitsThenUnitSound(t: string, p: nat, unit: string)
    ensures var r := Star(t, p, IsDigit, 1, |t|, SpacesThenUnit(t, unit));
            r.Some? ==> exists d: nat, s: nat :: p < d && AllIn(t, p, d, IsDigit) && AllIn(t, d, s, IsSpace)
                                                 && CiLitAt(t, s, unit) && r.value == s + |unit|
  {
    var r := Star(t, p, IsDigit, 1, |t|, SpacesThenUnit(t, unit));
    if r.Some? {
      var d: nat :| StarStep(t, p, IsDigit, 1, |t|, d) && r == SpacesThenUnit(t, unit)(d);
      var u := Star(t, d, IsSpace, 0, |t|, Unit(t, unit));
      assert r == u;
      var s: nat :| StarStep(t, d, IsSpace, 0, |t|, s) && u == Unit(t, unit)(s);
      var x := Lit(t, s, unit, Done);
      assert u == x;
      assert CiLitAt(t, s, unit) && x == Done(s + |unit|);
      assert p < d && AllIn(t, p, d, IsDigit) && AllIn(t, d, s, IsSpace);
    }
  }

  lemma DigitsThenUnitComplete(t: string, p: nat, unit: string)
    ensures forall d: nat, s: nat ::
              (p < d && AllIn(t, p, d, IsDigit) && AllIn(t, d, s, IsSpace) && CiLitAt(t, s, unit)) ==>
              Star(t, p, IsDigit, 1, |t|, SpacesThenUnit(t, unit)).Some?
  {
    forall d: nat, s: nat | p < d && AllIn(t, p, d, IsDigit) && AllIn(t, d, s, IsSpace) && CiLitAt(t, s, unit)
      ensures Star(t, p, IsDigit, 1, |t|, SpacesThenUnit(t, unit)).Some?
    {
      assert StarStep(t, d, IsSpace, 0, |t|, s) && Unit(t, unit)(s).Some?;
      assert StarStep(t, p, IsDigit, 1, |t|, d) && SpacesThenUnit(t, unit)(d).Some?;
    }
  }

  /** `(\d+\s*ay|\d+\s*yıl)` from `p`: the first alternative is tried first. */
  function Duration(t: string, p: nat): (r: Option<nat>)
    ensures r.Some? ==> DurationOk(t, p, r.value)
    ensures forall e: nat :: DurationOk(t, p, e) ==> r.Some?
  {
    match DigitsThenUnit(t, p, Units[0])
    case Some(e) => Some(e)
    case None => DigitsThenUnit(t, p, Units[1])
  }

  /** The duration group from each position. */
  function DurationFrom(t: string): Cont<nat>
  {
    (p: nat) => Duration(t, p)
  }

  /** `.*?(\d+\s*ay|\d+\s*yıl)` from `w`: the end of the match. */
  function DurationAfterEnd(t: string, w: nat): (r: Option<nat>)
    ensures r.Some? ==> DurationAfter(t, w, r.value)
    ensures forall e: nat :: DurationAfter(t, w, e) ==> r.Some?
  {
    Lazy(t, w, DurationFrom(t))
  }

  /** The rest of the pattern after the validity group, from each position. */
  function AfterValidity(t: string): Cont<nat>
  {
    (w: nat) => DurationAfterEnd(t, w)
  }

  /** The validity group and the rest of the pattern, from each position. */
  function ValidityFrom(t: string): Cont<nat>
  {
    (v: nat) => Alt(t, v, Validity, AfterValidity(t))
  }

  /** `.*?(en az|geçerli).*?(\d+\s*ay|\d+\s*yıl)` from `k`: the end of the match. */
  function ValidityAfterEnd(t: string, k: nat): (r: Option<nat>)
    ensures r.Some? ==> ValidityAfter(t, k, r.value)
    ensures forall e: nat :: ValidityAfter(t, k, e) ==> r.Some?
  {
    ValidityAfterEndSound(t, k);
    ValidityAfterEndComplete(t, k);
    Lazy(t, k, ValidityFrom(t))
  }

  lemma ValidityAfterEndSound(t: string, k: nat)
    ensures var r := Lazy(t, k, ValidityFrom(t));
            r.Some? ==> ValidityAfter(t, k, r.value)
  {
    var r := Lazy(t, k, ValidityFrom(t));
    if r.Some? {
      var v: nat :| Gap(t, k, v) && r == ValidityFrom(t)(v);
      var u := Alt(t, v, Validity, AfterValidity(t));
      assert r == u;
      var w: nat :| AltAt(t, v, Validity, w) && u == AfterValidity(t)(w);
      assert DurationAfter(t, w, r.value);
    }
  }

  lemma ValidityAfterEndComplete(t: string, k: nat)
    ensures forall e: nat :: ValidityAfter(t, k, e) ==> Lazy(t, k, ValidityFrom(t)).Some?
  {
    forall e: nat | ValidityAfter(t, k, e)
      ensures Lazy(t, k, ValidityFrom(t)).Some?
    {
      var v: nat, w: nat :| Gap(t, k, v) && AltAt(t, v, Validity, w) && DurationAfter(t, w, e);
      assert DurationAfterEnd(t, w).Some?;
      assert AfterValidity(t)(w).Some?;
      assert Alt(t, v, Validity, AfterValidity(t)).Some?;
      assert ValidityFrom(t)(v).Some?;
    }
  }

  /** The rest of the pattern after the keyword, from each position. */
  function AfterKey(t: string): Cont<nat>
  {
    (k: nat) => ValidityAfterEnd(t, k)
  }

  /** The pattern anchored at `i` (one step of `re.search`): the end of group 0. */
  function At(t: string, i: nat): (r: Option<nat>)
    ensures r.Some? ==> Valid(t, i, r.value)
    ensures forall e: nat :: Valid(t, i, e) ==> r.Some?
  {
    Alt(t, i, Keys, AfterKey(t))
  }

  /** A match starts with one of the keywords. */
  lemma ValidKey(t: string, i: nat, e: nat)
    requires Valid(t, i, e)
    ensures exists j :: 0 <= j < |Keys| && CiLitAt(t, i, Keys[j])
  {
  }

  /** A match lies inside the text and is not empty. */
  lemma ValidBounds(t: string, i: nat, e: nat)
    requires Valid(t, i, e)
    ensures i < e <= |t|
  {
  }

  /** A match stays on one line, except that the white space between the
      number and its unit may hold line breaks: `.` never crosses a newline,
      but `\s` does. */
  lemma ValidLines(t: string, i: nat, e: nat)
    requires Valid(t, i, e)
    ensures exists d: nat, s: nat :: i < d <= s < e && Gap(t, i, d) && AllIn(t, d, s, IsSpace) && Gap(t, s, e)
  {
    var k: nat :| AltAt(t, i, Keys, k) && ValidityAfter(t, k, e);
    var v: nat, w: nat :| Gap(t, k, v) && AltAt(t, v, Validity, w) && DurationAfter(t, w, e);
    var p: nat :| Gap(t, w, p) && DurationOk(t, p, e);
    OneLineWords();
    AltAtGap(t, i, Keys, k);
    AltAtGap(t, v, Validity, w);
    GapJoin(t, i, k, v);
    GapJoin(t, i, v, w);
    GapJoin(t, i, w, p);
    DurationLines(t, i, p, e);
  }

  /** The number of a duration starts a stretch without a newline; its unit
      ends one. */
  lemma DurationLines(t: string, i: nat, p: nat, e: nat)
    requires Gap(t, i, p) && DurationOk(t, p, e)
    ensures exists d: nat, s: nat :: i < d <= s < e && Gap(t, i, d) && AllIn(t, d, s, IsSpace) && Gap(t, s, e)
  {
    var d: nat, s: nat :| p < d && AllIn(t, p, d, IsDigit) && AllIn(t, d, s, IsSpace) && AltAt(t, s, Units, e);
    OneLineWords();
    AltAtGap(t, s, Units, e);
    assert Gap(t, i, d);
    var j :| 0 <= j < |Units| && CiLitAt(t, s, Units[j]) && e == s + |Units[j]|;
    assert i < d <= s < e;
  }

  /** None of the pattern's words holds a newline. */
  lemma OneLineWords()
    ensures forall j :: 0 <= j < |Keys| ==> OneLine(Keys[j])
    ensures forall j :: 0 <= j < |Validity| ==> OneLine(Validity[j])
    ensures forall j :: 0 <= j < |Units| ==> OneLine(Units[j]) && |Units[j]| > 0
  {
  }

  /** The per-position matcher that `re.search` runs at every start. */
  function Attempt(t: string): Cont<nat>
  {
    (i: nat) => At(t, i)
  }

  lemma AttemptMeansValid(t: string)
    ensures forall i: nat :: Attempt(t)(i).Some? ==> Valid(t, i, Attempt(t)(i).value)
    ensures forall i: nat, e: nat :: Valid(t, i, e) ==> i <= |t| && Attempt(t)(i).Some?
  {
    forall i: nat, e: nat | Valid(t, i, e)
      ensures i <= |t| && Attempt(t)(i).Some?
    {
      ValidBounds(t, i, e);
    }
  }

  /** `re.search`: the leftmost start at which the pattern matches, with the
      end of the match the engine picks there. */
  function Search(t: string): (r: Option<(nat, nat)>)
    ensures r.Some? ==> Valid(t, r.value.0, r.value.1) && Chosen(t, r.value.0, r.value.1)
    ensures r.Some? ==> forall i: nat, e: nat :: Valid(t, i, e) ==> r.value.0 <= i
    ensures r.None? <==> forall i: nat, e: nat :: !Valid(t, i, e)
  {
    AttemptMeansValid(t);
    var r := Leftmost(t, 0, Attempt(t));
    assert r.Some? ==> Chosen(t, r.value.0, r.value.1) by {
      if r.Some? {
        AtChosen(t, r.value.0);
      }
    }
    assert r.Some? ==> forall i: nat, e: nat :: Valid(t, i, e) ==> r.value.0 <= i by {
      if r.Some? {
        forall i: nat, e: nat | Valid(t, i, e)
          ensures r.value.0 <= i
        {
          LeftmostFirst(t, 0, Attempt(t), i);
        }
      }
    }
    r
  }

  /** Without "pasaport" or "travel document" in the text, ignoring case, nothing
      matches. */
  lemma NoKeyNoMatch(t: string)
    requires !Occurs(FoldStr(t), "pasaport") && !Occurs(FoldStr(t), "travel document")
    ensures Search(t).None?
  {
    FoldStrFixed(Keys[0]);
    FoldStrFixed(Keys[1]);
    NoAltAt(t, Keys);
  }

  /** No duration starts in `t[w..p]`. */
  ghost predicate NoDurationBefore(t: string, w: nat, p: nat)
  {
    forall q: nat, e: nat :: w <= q < p ==> !DurationOk(t, q, e)
  }

  /** A validity word starts at `u` and a duration follows it on its line. */
  ghost predicate ValidityFollowed(t: string, u: nat)
  {
    exists w: nat, e: nat :: AltAt(t, u, Validity, w) && DurationAfter(t, w, e)
  }

  /** No validity word followed, on its line, by a duration starts in `t[k..v]`. */
  ghost predicate NoValidityBefore(t: string, k: nat, v: nat)
  {
    forall u: nat :: k <= u < v ==> !ValidityFollowed(t, u)
  }

  /** `.*?(\d+\s*ay|\d+\s*yıl)` as the engine runs it from `w`: the gap stops
      at the first position where a duration starts. */
  ghost predicate DurationChosen(t: string, w: nat, e: nat)
  {
    exists p: nat :: Gap(t, w, p) && NoDurationBefore(t, w, p) && DurationOk(t, p, e)
  }

  /** `.*?(en az|geçerli).*?(\d+\s*ay|\d+\s*yıl)` as the engine runs it from
      `k`: the first gap stops at the first validity word that a duration
      follows on its line, the second at the first duration after it. */
  ghost predicate ValidityChosen(t: string, k: nat, e: nat)
  {
    exists v: nat, w: nat :: Gap(t, k, v) && NoValidityBefore(t, k, v) && AltAt(t, v, Validity, w) && DurationChosen(t, w, e)
  }

  /** `t[i..e]` is the match the engine reports at `i`. */
  ghost predicate Chosen(t: string, i: nat, e: nat)
  {
    exists k: nat :: AltAt(t, i, Keys, k) && ValidityChosen(t, k, e)
  }

  /** The engine's match at `i` is the chosen one. */
  lemma AtChosen(t: string, i: nat)
    requires At(t, i).Some?
    ensures Chosen(t, i, At(t, i).value)
  {
    var r := Alt(t, i, Keys, AfterKey(t));
    var k: nat :| AltAt(t, i, Keys, k) && r == AfterKey(t)(k);
    ValidityAfterChosen(t, k);
  }

  lemma ValidityAfterChosen(t: string, k: nat)
    requires ValidityAfterEnd(t, k).Some?
    ensures ValidityChosen(t, k, ValidityAfterEnd(t, k).value)
  {
    var v: nat := FirstValidityOf(t, k);
    var a := Alt(t, v, Validity, AfterValidity(t));
    var w: nat :| AltAt(t, v, Validity, w) && a == AfterValidity(t)(w);
    DurationAfterChosen(t, w);
  }

  /** The first gap stops at the first validity word that a duration
      follows; returns where that word starts. */
  lemma FirstValidityOf(t: string, k: nat) returns (v: nat)
    requires Lazy(t, k, ValidityFrom(t)).Some?
    ensures Gap(t, k, v) && NoValidityBefore(t, k, v)
    ensures Lazy(t, k, ValidityFrom(t)) == Alt(t, v, Validity, AfterValidity(t))
  {
    v := LazyStop(t, k, ValidityFrom(t));
    NoValidityRange(t, k, v);
  }

  /** Where the validity group and the rest fail all along `t[k..v]`, no
      validity word followed by a duration starts there. */
  lemma NoValidityRange(t: string, k: nat, v: nat)
    requires forall d :: k <= d < v ==> ValidityFrom(t)(d).None?
    ensures NoValidityBefore(t, k, v)
  {
    forall u: nat | k <= u < v
      ensures !ValidityFollowed(t, u)
    {
      NoValidity(t, u);
    }
  }

  /** Where the validity group and the rest fail, no validity word is
      followed by a duration. */
  lemma NoValidity(t: string, u: nat)
    requires ValidityFrom(t)(u).None?
    ensures !ValidityFollowed(t, u)
  {
    assert Alt(t, u, Validity, AfterValidity(t)).None?;
  }

  lemma DurationAfterChosen(t: string, w: nat)
    requires DurationAfterEnd(t, w).Some?
    ensures DurationChosen(t, w, DurationAfterEnd(t, w).value)
  {
    var p := LazyStop(t, w, DurationFrom(t));
    NoDurationRange(t, w, p);
    assert Duration(t, p) == Lazy(t, w, DurationFrom(t));
  }

  /** Where the duration group fails all along `t[w..p]`, no duration
      starts there. */
  lemma NoDurationRange(t: string, w: nat, p: nat)
    requires forall d :: w <= d < p ==> DurationFrom(t)(d).None?
    ensures NoDurationBefore(t, w, p)
  {
    forall q: nat, e: nat | w <= q < p
      ensures !DurationOk(t, q, e)
    {
      NoDuration(t, q);
    }
  }

  /** Where the duration group fails, no duration starts. */
  lemma NoDuration(t: string, q: nat)
    requires DurationFrom(t)(q).None?
    ensures forall e: nat :: !DurationOk(t, q, e)
  {
    assert Duration(t, q).None?;
  }

  /** The chosen match at `i`, when there is one, ends in one place. */
  lemma ChosenUnique(t: string, i: nat, e: nat, f: nat)
    requires Chosen(t, i, e) && Chosen(t, i, f)
    ensures e == f
  {
    var k: nat :| AltAt(t, i, Keys, k) && ValidityChosen(t, k, e);
    var k': nat :| AltAt(t, i, Keys, k') && ValidityChosen(t, k', f);
    SameKey(t, i, k, k');
    ValidityChosenUnique(t, k, e, f);
  }

  /** Only one keyword matches at a position. */
  lemma SameKey(t: string, i: nat, k: nat, k': nat)
    requires AltAt(t, i, Keys, k) && AltAt(t, i, Keys, k')
    ensures k == k'
  {
    KeysDistinct();
    AltAtUnique(t, i, Keys, k, k');
  }

  lemma ValidityChosenUnique(t: string, k: nat, e: nat, f: nat)
    requires ValidityChosen(t, k, e) && ValidityChosen(t, k, f)
    ensures e == f
  {
    var v: nat, w: nat :| Gap(t, k, v) && NoValidityBefore(t, k, v) && AltAt(t, v, Validity, w) && DurationChosen(t, w, e);
    var v': nat, w': nat :| Gap(t, k, v') && NoValidityBefore(t, k, v') && AltAt(t, v', Validity, w') && DurationChosen(t, w', f);
    ChosenDuration(t, w, e);
    ChosenDuration(t, w', f);
    FirstValidity(t, k, v, v', w, w', e, f);
    SameValidity(t, v, w, w');
    DurationChosenUnique(t, w, e, f);
  }

  /** Only one validity word matches at a position. */
  lemma SameValidity(t: string, v: nat, w: nat, w': nat)
    requires AltAt(t, v, Validity, w) && AltAt(t, v, Validity, w')
    ensures w == w'
  {
    ValidityDistinct();
    AltAtUnique(t, v, Validity, w, w');
  }

  /** Two positions that are each the first, from `k` on, where a validity
      word followed by a duration starts are the same. */
  lemma FirstValidity(t: string, k: nat, v: nat, v': nat, w: nat, w': nat, e: nat, f: nat)
    requires Gap(t, k, v) && NoValidityBefore(t, k, v) && AltAt(t, v, Validity, w) && DurationAfter(t, w, e)
    requires Gap(t, k, v') && NoValidityBefore(t, k, v') && AltAt(t, v', Validity, w') && DurationAfter(t, w', f)
    ensures v == v'
  {
    assert ValidityFollowed(t, v) && ValidityFollowed(t, v');
  }

  /** The chosen duration is a duration after the gap. */
  lemma ChosenDuration(t: string, w: nat, e: nat)
    requires DurationChosen(t, w, e)
    ensures DurationAfter(t, w, e)
  {
  }

  lemma DurationChosenUnique(t: string, w: nat, e: nat, f: nat)
    requires DurationChosen(t, w, e) && DurationChosen(t, w, f)
    ensures e == f
  {
    var p: nat :| Gap(t, w, p) && NoDurationBefore(t, w, p) && DurationOk(t, p, e);
    var p': nat :| Gap(t, w, p') && NoDurationBefore(t, w, p') && DurationOk(t, p', f);
    assert p == p';
    DurationUnique(t, p, e, f);
  }

  /** At a given position a duration ends in one place: the digits run to
      the first non-digit, the white space to the first other character, and
      "ay" and "yıl" start with different letters. */
  lemma DurationUnique(t: string, p: nat, e: nat, f: nat)
    requires DurationOk(t, p, e) && DurationOk(t, p, f)
    ensures e == f
  {
    var d: nat, s: nat :| p < d && AllIn(t, p, d, IsDigit) && AllIn(t, d, s, IsSpace) && AltAt(t, s, Units, e);
    var d': nat, s': nat :| p < d' && AllIn(t, p, d', IsDigit) && AllIn(t, d', s', IsSpace) && AltAt(t, s', Units, f);
    UnitStart(t, s, e);
    UnitStart(t, s', f);
    DigitsEnd(t, d, s);
    DigitsEnd(t, d', s');
    RunEndUnique(t, p, d, d', IsDigit);
    RunEndUnique(t, d, s, s', IsSpace);
    SameUnit(t, s, e, f);
  }

  /** A unit starts with neither a digit nor white space. */
  lemma UnitStart(t: string, s: nat, e: nat)
    requires AltAt(t, s, Units, e)
    ensures s < |t| && !IsDigit(t[s]) && !IsSpace(t[s])
  {
    UnitsDistinct();
    AltAtNotDigitOrSpace(t, s, Units, e);
  }

  /** The white space before a unit starts with a character that is not a digit. */
  lemma DigitsEnd(t: string, d: nat, s: nat)
    requires AllIn(t, d, s, IsSpace) && s < |t| && !IsDigit(t[s]) && !IsSpace(t[s])
    ensures d < |t| && !IsDigit(t[d])
  {
    if d < s {
      assert IsSpace(t[d]);
    }
  }

  /** Only one unit matches at a position. */
  lemma SameUnit(t: string, s: nat, e: nat, f: nat)
    requires AltAt(t, s, Units, e) && AltAt(t, s, Units, f)
    ensures e == f
  {
    UnitsDistinct();
    AltAtUnique(t, s, Units, e, f);
  }

  /** The keywords start with letters that differ, ignoring case. */
  lemma KeysDistinct()
    ensures forall j :: 0 <= j < |Keys| ==> |Keys[j]| > 0
    ensures forall j, m :: 0 <= j < m < |Keys| ==> Fold(Keys[j][0]) != Fold(Keys[m][0])
  {
    assert Keys[0][0] == 'p' && Keys[1][0] == 't';
  }

  /** The validity words start with letters that differ, ignoring case. */
  lemma ValidityDistinct()
    ensures forall j :: 0 <= j < |Validity| ==> |Validity[j]| > 0
    ensures forall j, m :: 0 <= j < m < |Validity| ==> Fold(Validity[j][0]) != Fold(Validity[m][0])
  {
    assert Validity[0][0] == 'e' && Validity[1][0] == 'g';
  }

  /** The units start with letters that differ, ignoring case, and with
      neither a digit nor white space. */
  lemma UnitsDistinct()
    ensures forall j :: 0 <= j < |Units| ==> |Units[j]| > 0 && !IsDigit(Fold(Units[j][0])) && !IsSpace(Fold(Units[j][0]))
    ensures forall j, m :: 0 <= j < m < |Units| ==> Fold(Units[j][0]) != Fold(Units[m][0])
  {
    assert Units[0][0] == 'a' && Units[1][0] == 'y';
  }

  /** The engine's match at `i` ends at `e` exactly when `t[i..e]` is the
      chosen match. */
  lemma AtChosenIff(t: string, i: nat, e: nat)
    ensures At(t, i) == Some(e) <==> Chosen(t, i, e)
  {
    if Chosen(t, i, e) {
      ChosenValid(t, i, e);
      AtChosen(t, i);
      ChosenUnique(t, i, At(t, i).value, e);
    } else if At(t, i).Some? {
      AtChosen(t, i);
    }
  }

  /** The chosen match is a match. */
  lemma ChosenValid(t: string, i: nat, e: nat)
    requires Chosen(t, i, e)
    ensures Valid(t, i, e)
  {
    var k: nat :| AltAt(t, i, Keys, k) && ValidityChosen(t, k, e);
    var v: nat, w: nat :| Gap(t, k, v) && NoValidityBefore(t, k, v) && AltAt(t, v, Validity, w) && DurationChosen(t, w, e);
    ChosenDuration(t, w, e);
    assert ValidityAfter(t, k, e);
  }

  /** No match starts before `i`. */
  ghost predicate Earliest(t: string, i: nat)
  {
    forall i': nat, e': nat :: Valid(t, i', e') ==> i <= i'
  }

  /** `re.search` reports `t[i..e]` exactly when no match starts before `i`
      and `t[i..e]` is the match the engine chooses at `i`. */
  lemma SearchIff(t: string, i: nat, e: nat)
    ensures Search(t) == Some((i, e)) <==> Chosen(t, i, e) && Earliest(t, i)
  {
    if Chosen(t, i, e) && Earliest(t, i) {
      ChosenValid(t, i, e);
      var r := Search(t);
      ChosenUnique(t, i, r.value.1, e);
    }
  }
}
