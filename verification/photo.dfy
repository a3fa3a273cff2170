/** The photo-size pattern of the rule extractor,
        (biyometrik|fotoğraf).*?(\d\.\d\s*x\s*\d\.\d|\d\s*x\s*\d)
    searched with IGNORECASE. */
module Photo {
  import opened Text
  import opened Regex

  const Keys: seq<string> := ["biyometrik", "fotoğraf"]

  /** `\d\.\d` starts at `p`. */
  predicate DecimalAt(t: string, p: nat)
  {
    p + 3 <= |t| && IsDigit(t[p]) && t[p + 1] == '.' && IsDigit(t[p + 2])
  }

  /** `\s*x\s*` spans `t[a..b]`. */
  ghost predicate TimesOk(t: string, a: nat, b: nat)
  {
    exists x: nat :: AllIn(t, a, x, IsSpace) && CiLitAt(t, x, "x") && AllIn(t, x + 1, b, IsSpace)
  }

  /** `\d\.\d\s*x\s*\d\.\d` spans `t[p..e]`. */
  ghost predicate DecimalDimensionOk(t: string, p: nat, e: nat)
  {
    DecimalAt(t, p) && exists b: nat :: TimesOk(t, p + 3, b) && DecimalAt(t, b) && e == b + 3
  }

  /** `\d\s*x\s*\d` spans `t[p..e]`. */
  ghost predicate IntegerDimensionOk(t: string, p: nat, e: nat)
  {
    p < |t| && IsDigit(t[p]) && exists b: nat :: TimesOk(t, p + 1, b) && b < |t| && IsDigit(t[b]) && e == b + 1
  }

  /** `\d\.\d\s*x\s*\d\.\d|\d\s*x\s*\d` spans `t[p..e]`. */
  ghost predicate DimensionOk(t: string, p: nat, e: nat)
  {
    DecimalDimensionOk(t, p, e) || IntegerDimensionOk(t, p, e)
  }

  /** The whole pattern matches exactly `t[i..e]`. */
  ghost predicate Valid(t: string, i: nat, e: nat)
  {
    exists k: nat, p: nat :: AltAt(t, i, Keys, k) && Gap(t, k, p) && DimensionOk(t, p, e)
  }

  /** `\s*x\s*`, then the rest. */
  function Times<T>(t: string, a: nat, k: Cont<T>): (r: Option<T>)
    ensures r.Some? ==> exists b: nat :: TimesOk(t, a, b) && r == k(b)
    ensures forall b: nat :: TimesOk(t, a, b) && k(b).Some? ==> r.Some?
  {
    TimesSound(t, a, k);
    TimesComplete(t, a, k);
    Star(t, a, IsSpace, 0, |t|, Cross(t, k))
  }

  /** `x\s*` from each position, then the rest. */
  function Cross<T>(t: string, k: Cont<T>): Cont<T>
  {
    (x: nat) => Lit(t, x, "x", AfterCross(t, k))
  }

  /** `\s*` after the `x`, then the rest. */
  function AfterCross<T>(t: string, k: Cont<T>): Cont<T>
  {
    (y: nat) => Star(t, y, IsSpace, 0, |t|, k)
  }

  lemma TimesSound<T>(t: string, a: nat, k: Cont<T>)
    ensures var r := Star(t, a, IsSpace, 0, |t|, Cross(t, k));
            r.Some? ==> exists b: nat :: TimesOk(t, a, b) && r == k(b)
  {
    var r := Star(t, a, IsSpace, 0, |t|, Cross(t, k));
    if r.Some? {
      var x: nat :| StarStep(t, a, IsSpace, 0, |t|, x) && r == Cross(t, k)(x);
      assert CiLitAt(t, x, "x") && r == AfterCross(t, k)(x + 1);
      var s := Star(t, x + 1, IsSpace, 0, |t|, k);
      assert r == s;
      var b: nat :| StarStep(t, x + 1, IsSpace, 0, |t|, b) && s == k(b);
      assert TimesOk(t, a, b);
    }
  }

  lemma TimesComplete<T>(t: string, a: nat, k: Cont<T>)
    ensures forall b: nat :: TimesOk(t, a, b) && k(b).Some? ==> Star(t, a, IsSpace, 0, |t|, Cross(t, k)).Some?
  {
    forall b: nat | TimesOk(t, a, b) && k(b).Some?
      ensures Star(t, a, IsSpace, 0, |t|, Cross(t, k)).Some?
    {
      var x: nat :| AllIn(t, a, x, IsSpace) && CiLitAt(t, x, "x") && AllIn(t, x + 1, b, IsSpace);
      assert StarStep(t, x + 1, IsSpace, 0, |t|, b);
      assert AfterCross(t, k)(x + 1).Some?;
      assert StarStep(t, a, IsSpace, 0, |t|, x) && Cross(t, k)(x).Some?;
    }
  }

  /** `\d\.\d`, then the rest. */
  function Decimal<T>(t: string, p: nat, k: Cont<T>): (r: Option<T>)
    ensures r == (if DecimalAt(t, p) then k(p + 3) else None)
  {
    var last := (b: nat) => One(t, b, IsDigit, k);
    CiLitAtSymbol(t, p + 1, '.');
    assert Lit(t, p + 1, ".", last) == (if p + 1 < |t| && t[p + 1] == '.' then last(p + 2) else None);
    One(t, p, IsDigit, (a: nat) => Lit(t, a, ".", last))
  }

  /** The closing `\d\.\d` of the decimal form, from each position. */
  function LastDecimal(t: string): Cont<nat>
  {
    (b: nat) => Decimal(t, b, Done)
  }

  /** `\s*x\s*` and the rest, from each position. */
  function TimesThen<T>(t: string, k: Cont<T>): Cont<T>
  {
    (a: nat) => Times(t, a, k)
  }

  /** `\d\.\d\s*x\s*\d\.\d` from `p`: the end of the match. */
  function DecimalDimension(t: string, p: nat): (r: Option<nat>)
    ensures r.Some? ==> DecimalDimensionOk(t, p, r.value)
    ensures forall e: nat :: DecimalDimensionOk(t, p, e) ==> r.Some?
  {
    DecimalDimensionSound(t, p);
    DecimalDimensionComplete(t, p);
    Decimal(t, p, TimesThen(t, LastDecimal(t)))
  }

  lemma DecimalDimensionSound(t: string, p: nat)
    ensures var r := Decimal(t, p, TimesThen(t, LastDecimal(t)));
            r.Some? ==> DecimalDimensionOk(t, p, r.value)
  {
    var r := Decimal(t, p, TimesThen(t, LastDecimal(t)));
    if r.Some? {
      assert DecimalAt(t, p) && r == TimesThen(t, LastDecimal(t))(p + 3);
      var s := Times(t, p + 3, LastDecimal(t));
      assert r == s;
      var b: nat :| TimesOk(t, p + 3, b) && s == LastDecimal(t)(b);
      var u := Decimal(t, b, Done);
      assert s == u;
      assert DecimalAt(t, b) && u == Done(b + 3);
    }
  }

  lemma DecimalDimensionComplete(t: string, p: nat)
    ensures forall e: nat :: DecimalDimensionOk(t, p, e) ==> Decimal(t, p, TimesThen(t, LastDecimal(t))).Some?
  {
    forall e: nat | DecimalDimensionOk(t, p, e)
      ensures Decimal(t, p, TimesThen(t, LastDecimal(t))).Some?
    {
      var b: nat :| TimesOk(t, p + 3, b) && DecimalAt(t, b) && e == b + 3;
      assert LastDecimal(t)(b).Some?;
      assert TimesThen(t, LastDecimal(t))(p + 3).Some?;
    }
  }

  /** The closing `\d` of the integer form, from each position. */
  function LastDigit(t: string): Cont<nat>
  {
    (b: nat) => One(t, b, IsDigit, Done)
  }

  /** `\d\s*x\s*\d` from `p`: the end of the match. */
  function IntegerDimension(t: string, p: nat): (r: Option<nat>)
    ensures r.Some? ==> IntegerDimensionOk(t, p, r.value)
    ensures forall e: nat :: IntegerDimensionOk(t, p, e) ==> r.Some?
  {
    IntegerDimensionSound(t, p);
    IntegerDimensionComplete(t, p);
    One(t, p, IsDigit, TimesThen(t, LastDigit(t)))
  }

  lemma IntegerDimensionSound(t: string, p: nat)
    ensures var r := One(t, p, IsDigit, TimesThen(t, LastDigit(t)));
            r.Some? ==> IntegerDimensionOk(t, p, r.value)
  {
    var r := One(t, p, IsDigit, TimesThen(t, LastDigit(t)));
    if r.Some? {
      assert p < |t| && IsDigit(t[p]) && r == TimesThen(t, LastDigit(t))(p + 1);
      var s := Times(t, p + 1, LastDigit(t));
      assert r == s;
      var b: nat :| TimesOk(t, p + 1, b) && s == LastDigit(t)(b);
      var u := One(t, b, IsDigit, Done);
      assert s == u;
      assert b < |t| && IsDigit(t[b]) && u == Done(b + 1);
    }
  }

  lemma IntegerDimensionComplete(t: string, p: nat)
    ensures forall e: nat :: IntegerDimensionOk(t, p, e) ==> One(t, p, IsDigit, TimesThen(t, LastDigit(t))).Some?
  {
    forall e: nat | IntegerDimensionOk(t, p, e)
      ensures One(t, p, IsDigit, TimesThen(t, LastDigit(t))).Some?
    {
      var b: nat :| TimesOk(t, p + 1, b) && b < |t| && IsDigit(t[b]) && e == b + 1;
      assert LastDigit(t)(b).Some?;
      assert TimesThen(t, LastDigit(t))(p + 1).Some?;
    }
  }

  /** `(\d\.\d\s*x\s*\d\.\d|\d\s*x\s*\d)` from `p`: the decimal form is tried first. */
  function Dimension(t: string, p: nat): (r: Option<nat>)
    ensures r.Some? ==> DimensionOk(t, p, r.value)
    ensures forall e: nat :: DimensionOk(t, p, e) ==> r.Some?
  {
    match DecimalDimension(t, p)
    case Some(e) => Some(e)
    case None => IntegerDimension(t, p)
  }

  /** The dimension group from each position. */
  function DimensionFrom(t: string): Cont<nat>
  {
    (p: nat) => Dimension(t, p)
  }

  /** `.*?` and the dimension group, after the keyword. */
  function AfterKey(t: string): Cont<nat>
  {
    (k: nat) => Lazy(t, k, DimensionFrom(t))
  }

  /** The pattern anchored at `i`: the end of group 0. */
  function At(t: string, i: nat): (r: Option<nat>)
    ensures r.Some? ==> Valid(t, i, r.value)
    ensures forall e: nat :: Valid(t, i, e) ==> r.Some?
  {
    AtSound(t, i);
    AtComplete(t, i);
    Alt(t, i, Keys, AfterKey(t))
  }

  lemma AtSound(t: string, i: nat)
    ensures var r := Alt(t, i, Keys, AfterKey(t));
            r.Some? ==> Valid(t, i, r.value)
  {
    var r := Alt(t, i, Keys, AfterKey(t));
    if r.Some? {
      var k: nat :| AltAt(t, i, Keys, k) && r == AfterKey(t)(k);
      var l := Lazy(t, k, DimensionFrom(t));
      assert r == l;
      var p: nat :| Gap(t, k, p) && l == DimensionFrom(t)(p);
      assert DimensionOk(t, p, r.value);
    }
  }

  lemma AtComplete(t: string, i: nat)
    ensures forall e: nat :: Valid(t, i, e) ==> Alt(t, i, Keys, AfterKey(t)).Some?
  {
    forall e: nat | Valid(t, i, e)
      ensures Alt(t, i, Keys, AfterKey(t)).Some?
    {
      var k: nat, p: nat :| AltAt(t, i, Keys, k) && Gap(t, k, p) && DimensionOk(t, p, e);
      assert DimensionFrom(t)(p).Some?;
      assert AfterKey(t)(k).Some?;
    }
  }

  /** A match lies inside the text and is not empty. */
  lemma ValidBounds(t: string, i: nat, e: nat)
    requires Valid(t, i, e)
    ensures i < e <= |t|
  {
  }

  /** The per-position matcher that `re.search` runs at every start. */
  function Attempt(t: string): Cont<nat>
  {
    (i: nat) => At(t, i)
  }

  lemma AttemptMeansValid(t: string)
    ensures forall i: nat :: Attempt(t)(i).Some? ==> Valid(t, i, Attempt(t)(i).value)
    ensures forall i: nat, e: nat :: Valid(t, i, e) ==> i <= |t| && Attempt(t)(i).Some?
  {
    forall i: nat, e: nat | Valid(t, i, e)
      ensures i <= |t| && Attempt(t)(i).Some?
    {
      ValidBounds(t, i, e);
    }
  }

  /** `re.search`: the leftmost start at which the pattern matches, with the
      end of the match the engine picks there. */
  function Search(t: string): (r: Option<(nat, nat)>)
    ensures r.Some? ==> Valid(t, r.value.0, r.value.1) && Chosen(t, r.value.0, r.value.1)
    ensures r.Some? ==> forall i: nat, e: nat :: Valid(t, i, e) ==> r.value.0 <= i
    ensures r.None? <==> forall i: nat, e: nat :: !Valid(t, i, e)
  {
    AttemptMeansValid(t);
    var r := Leftmost(t, 0, Attempt(t));
    assert r.Some? ==> Chosen(t, r.value.0, r.value.1) by {
      if r.Some? {
        AtChosen(t, r.value.0);
      }
    }
    assert r.Some? ==> forall i: nat, e: nat :: Valid(t, i, e) ==> r.value.0 <= i by {
      if r.Some? {
        forall i: nat, e: nat | Valid(t, i, e)
          ensures r.value.0 <= i
        {
          LeftmostFirst(t, 0, Attempt(t), i);
        }
      }
    }
    r
  }

  /** Without "biyometrik" or "fotoğraf" in the text, ignoring case, nothing
      matches. */
  lemma NoKeyNoMatch(t: string)
    requires !Occurs(FoldStr(t), "biyometrik") && !Occurs(FoldStr(t), "fotoğraf")
    ensures Search(t).None?
  {
    FoldStrFixed(Keys[0]);
    FoldStrFixed(Keys[1]);
    NoAltAt(t, Keys);
  }

  /** No size starts in `t[k..p]`. */
  ghost predicate NoDimensionBefore(t: string, k: nat, p: nat)
  {
    forall q: nat, e: nat :: k <= q < p ==> !DimensionOk(t, q, e)
  }

  /** `t[i..e]` is the match the engine reports at `i`: after the keyword,
      `.*?` stops at the first position where a size follows. */
  ghost predicate Chosen(t: string, i: nat, e: nat)
  {
    exists k: nat, p: nat :: AltAt(t, i, Keys, k) && Gap(t, k, p) && DimensionOk(t, p, e) && NoDimensionBefore(t, k, p)
  }

  /** The engine's match at `i` is the chosen one. */
  lemma AtChosen(t: string, i: nat)
    requires At(t, i).Some?
    ensures Chosen(t, i, At(t, i).value)
  {
    var r := Alt(t, i, Keys, AfterKey(t));
    var k: nat :| AltAt(t, i, Keys, k) && r == AfterKey(t)(k);
    LazyChosen(t, k);
  }

  /** `.*?` and the size group stop at the first position where a size follows. */
  lemma LazyChosen(t: string, k: nat)
    requires Lazy(t, k, DimensionFrom(t)).Some?
    ensures exists p: nat :: Gap(t, k, p) && DimensionOk(t, p, Lazy(t, k, DimensionFrom(t)).value) && NoDimensionBefore(t, k, p)
  {
    var l := Lazy(t, k, DimensionFrom(t));
    var p: nat :| Gap(t, k, p) && l == DimensionFrom(t)(p) && forall d :: k <= d < p ==> DimensionFrom(t)(d).None?;
    forall q: nat, e: nat | k <= q < p
      ensures !DimensionOk(t, q, e)
    {
      NoDimension(t, q);
    }
    assert Dimension(t, p) == l;
  }

  /** Where the size group fails, no size starts. */
  lemma NoDimension(t: string, q: nat)
    requires DimensionFrom(t)(q).None?
    ensures forall e: nat :: !DimensionOk(t, q, e)
  {
    assert Dimension(t, q).None?;
  }

  /** The chosen match at `i`, when there is one, ends in one place: the two
      keywords start with different letters, the first position where a size
      follows is unique, and so is the size there. */
  lemma ChosenUnique(t: string, i: nat, e: nat, f: nat)
    requires Chosen(t, i, e) && Chosen(t, i, f)
    ensures e == f
  {
    var k: nat, p: nat :| AltAt(t, i, Keys, k) && Gap(t, k, p) && DimensionOk(t, p, e) && NoDimensionBefore(t, k, p);
    var k': nat, p': nat :| AltAt(t, i, Keys, k') && Gap(t, k', p') && DimensionOk(t, p', f) && NoDimensionBefore(t, k', p');
    SameKey(t, i, k, k');
    FirstDimension(t, k, p, p', e, f);
    DimensionUnique(t, p, e, f);
  }

  /** Only one keyword matches at a position. */
  lemma SameKey(t: string, i: nat, k: nat, k': nat)
    requires AltAt(t, i, Keys, k) && AltAt(t, i, Keys, k')
    ensures k == k'
  {
    KeysDistinct();
    AltAtUnique(t, i, Keys, k, k');
  }

  /** Two positions that are each the first, from `k` on, where a size
      starts are the same. */
  lemma FirstDimension(t: string, k: nat, p: nat, p': nat, e: nat, f: nat)
    requires Gap(t, k, p) && DimensionOk(t, p, e) && NoDimensionBefore(t, k, p)
    requires Gap(t, k, p') && DimensionOk(t, p', f) && NoDimensionBefore(t, k, p')
    ensures p == p'
  {
  }

  /** The engine's match at `i` ends at `e` exactly when `t[i..e]` is the
      chosen match. */
  lemma AtChosenIff(t: string, i: nat, e: nat)
    ensures At(t, i) == Some(e) <==> Chosen(t, i, e)
  {
    if Chosen(t, i, e) {
      var k: nat, p: nat :| AltAt(t, i, Keys, k) && Gap(t, k, p) && DimensionOk(t, p, e) && NoDimensionBefore(t, k, p);
      assert Valid(t, i, e);
      AtChosen(t, i);
      ChosenUnique(t, i, At(t, i).value, e);
    } else if At(t, i).Some? {
      AtChosen(t, i);
    }
  }

  /** The keywords start with letters that differ, ignoring case. */
  lemma KeysDistinct()
    ensures forall j :: 0 <= j < |Keys| ==> |Keys[j]| > 0
    ensures forall j, m :: 0 <= j < m < |Keys| ==> Fold(Keys[j][0]) != Fold(Keys[m][0])
  {
    assert Keys[0][0] == 'b' && Keys[1][0] == 'f';
  }

  /** The "x" of a size is neither a digit nor white space. */
  lemma CrossIsLetter(t: string, x: nat)
    requires CiLitAt(t, x, "x")
    ensures x < |t| && !IsDigit(t[x]) && !IsSpace(t[x]) && t[x] != '.'
  {
    CiLitAtFirst(t, x, "x");
    FoldClass(t[x]);
  }

  /** `\s*x\s*` followed by a digit ends at that digit: the "x" is the first
      character that is not white space, and the digit the next one. */
  lemma TimesUnique(t: string, a: nat, b: nat, c: nat)
    requires TimesOk(t, a, b) && b < |t| && IsDigit(t[b])
    requires TimesOk(t, a, c) && c < |t| && IsDigit(t[c])
    ensures b == c
  {
    var x: nat :| AllIn(t, a, x, IsSpace) && CiLitAt(t, x, "x") && AllIn(t, x + 1, b, IsSpace);
    var y: nat :| AllIn(t, a, y, IsSpace) && CiLitAt(t, y, "x") && AllIn(t, y + 1, c, IsSpace);
    CrossIsLetter(t, x);
    CrossIsLetter(t, y);
    RunEndUnique(t, a, x, y, IsSpace);
    RunEndUnique(t, x + 1, b, c, IsSpace);
  }

  /** At a given position the size group ends in one place: the decimal and
      the integer form exclude each other (the second character is a dot in
      one and white space or the "x" in the other), and each ends at the
      digit after its `\s*x\s*`. */
  lemma DimensionUnique(t: string, p: nat, e: nat, f: nat)
    requires DimensionOk(t, p, e) && DimensionOk(t, p, f)
    ensures e == f
  {
    if DecimalDimensionOk(t, p, e) && DecimalDimensionOk(t, p, f) {
      var b: nat :| TimesOk(t, p + 3, b) && DecimalAt(t, b) && e == b + 3;
      var c: nat :| TimesOk(t, p + 3, c) && DecimalAt(t, c) && f == c + 3;
      TimesUnique(t, p + 3, b, c);
    } else if IntegerDimensionOk(t, p, e) && IntegerDimensionOk(t, p, f) {
      var b: nat :| TimesOk(t, p + 1, b) && b < |t| && IsDigit(t[b]) && e == b + 1;
      var c: nat :| TimesOk(t, p + 1, c) && c < |t| && IsDigit(t[c]) && f == c + 1;
      TimesUnique(t, p + 1, b, c);
    } else if DecimalDimensionOk(t, p, e) {
      DecimalNotInteger(t, p, f);
    } else {
      DecimalNotInteger(t, p, e);
    }
  }

  /** Where the decimal form of a size starts, the integer form does not. */
  lemma DecimalNotInteger(t: string, p: nat, e: nat)
    requires DecimalAt(t, p)
    ensures !IntegerDimensionOk(t, p, e)
  {
    if IntegerDimensionOk(t, p, e) {
      var b: nat :| TimesOk(t, p + 1, b) && b < |t| && IsDigit(t[b]) && e == b + 1;
      var x: nat :| AllIn(t, p + 1, x, IsSpace) && CiLitAt(t, x, "x") && AllIn(t, x + 1, b, IsSpace);
      CrossIsLetter(t, x);
      assert false;
    }
  }

  /** No match starts before `i`. */
  ghost predicate Earliest(t: string, i: nat)
  {
    forall i': nat, e': nat :: Valid(t, i', e') ==> i <= i'
  }

  /** `re.search` reports `t[i..e]` exactly when no match starts before `i`
      and `t[i..e]` is the match the engine chooses at `i`. */
  lemma SearchIff(t: string, i: nat, e: nat)
    ensures Search(t) == Some((i, e)) <==> Chosen(t, i, e) && Earliest(t, i)
  {
    if Chosen(t, i, e) && Earliest(t, i) {
      assert Valid(t, i, e);
      var r := Search(t);
      ChosenUnique(t, i, r.value.1, e);
    }
  }
}
