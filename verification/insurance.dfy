/** The insurance-coverage pattern of the rule extractor,
        (sigorta|teminat).*?(\d{2,3}[\.,]?\d{0,3})\s*(€|EUR|Euro)
    searched with IGNORECASE. */
module Insurance {
  import opened Text
  import opened Regex
  import opened Amounts

  const Keys: seq<string> := ["sigorta", "teminat"]
  const Currencies: seq<string> := ["€", "EUR", "Euro"]

  /** `[\.,]`: a thousands or decimal separator. */
  predicate IsSeparator(c: char)
  {
    c == '.' || c == ','
  }

  /** `\d{2,3}[\.,]?\d{0,3}` spans `t[a..b]`. */
  ghost predicate AmountOk(t: string, a: nat, b: nat)
  {
    exists m: nat, n: nat ::
      && a + 2 <= m <= a + 3 && AllIn(t, a, m, IsDigit)
      && m <= n <= m + 1 && AllIn(t, m, n, IsSeparator)
      && n <= b <= n + 3 && AllIn(t, n, b, IsDigit)
  }

  /** `(\d{2,3}[\.,]?\d{0,3})\s*(€|EUR|Euro)` with the groups where `h` says. */
  ghost predicate TailOk(t: string, h: Hit)
  {
    && AmountOk(t, h.amountStart, h.amountEnd)
    && AllIn(t, h.amountEnd, h.currencyStart, IsSpace)
    && AltAt(t, h.currencyStart, Currencies, h.end)
  }

  /** The whole pattern matches `t[h.start..h.end]` with the groups of `h`. */
  ghost predicate Valid(t: string, h: Hit)
  {
    exists k: nat :: AltAt(t, h.start, Keys, k) && Gap(t, k, h.amountStart) && TailOk(t, h)
  }

  /** `\d{2,3}[\.,]?\d{0,3}`, every quantifier greedy, then the rest. */
  function Amount<T>(t: string, a: nat, k: Cont<T>): (r: Option<T>)
    ensures r.Some? ==> exists b: nat :: AmountOk(t, a, b) && r == k(b)
    ensures forall b: nat :: AmountOk(t, a, b) && k(b).Some? ==> r.Some?
  {
    AmountSound(t, a, k);
    AmountComplete(t, a, k);
    Star(t, a, IsDigit, 2, 3, Separator(t, k))
  }

  /** `[\.,]?\d{0,3}`, then the rest. */
  function Separator<T>(t: string, k: Cont<T>): Cont<T>
  {
    (m: nat) => Star(t, m, IsSeparator, 0, 1, Fraction(t, k))
  }

  /** `\d{0,3}`, then the rest. */
  function Fraction<T>(t: string, k: Cont<T>): Cont<T>
  {
    (n: nat) => Star(t, n, IsDigit, 0, 3, k)
  }

  lemma AmountSound<T>(t: string, a: nat, k: Cont<T>)
    ensures var r := Star(t, a, IsDigit, 2, 3, Separator(t, k));
            r.Some? ==> exists b: nat :: AmountOk(t, a, b) && r == k(b)
  {
    var r := Star(t, a, IsDigit, 2, 3, Separator(t, k));
    if r.Some? {
      var m: nat :| StarStep(t, a, IsDigit, 2, 3, m) && r == Separator(t, k)(m);
      var rm := Star(t, m, IsSeparator, 0, 1, Fraction(t, k));
      assert r == rm;
      var n: nat :| StarStep(t, m, IsSeparator, 0, 1, n) && rm == Fraction(t, k)(n);
      var rn := Star(t, n, IsDigit, 0, 3, k);
      assert r == rn;
      var b: nat :| StarStep(t, n, IsDigit, 0, 3, b) && rn == k(b);
      assert AmountOk(t, a, b);
    }
  }

  lemma AmountComplete<T>(t: string, a: nat, k: Cont<T>)
    ensures forall b: nat :: AmountOk(t, a, b) && k(b).Some? ==> Star(t, a, IsDigit, 2, 3, Separator(t, k)).Some?
  {
    forall b: nat | AmountOk(t, a, b) && k(b).Some?
      ensures Star(t, a, IsDigit, 2, 3, Separator(t, k)).Some?
    {
      var m: nat, n: nat :|
        && a + 2 <= m <= a + 3 && AllIn(t, a, m, IsDigit)
        && m <= n <= m + 1 && AllIn(t, m, n, IsSeparator)
        && n <= b <= n + 3 && AllIn(t, n, b, IsDigit);
      assert StarStep(t, n, IsDigit, 0, 3, b) && Fraction(t, k)(n).Some?;
      assert StarStep(t, m, IsSeparator, 0, 1, n) && Separator(t, k)(m).Some?;
      assert StarStep(t, a, IsDigit, 2, 3, m);
    }
  }

  /** `(\d{2,3}[\.,]?\d{0,3})\s*(€|EUR|Euro)` from `a`, for a match that started at `i`. */
  function Tail(t: string, i: nat, a: nat): (r: Option<Hit>)
    ensures r.Some? ==> r.value.start == i && r.value.amountStart == a && TailOk(t, r.value)
    ensures forall h: Hit :: h.start == i && h.amountStart == a && TailOk(t, h) ==> r.Some?
  {
    var r := Amount(t, a, Spaces(t, Currencies, i, a));
    assert r.Some? ==> r.value.start == i && r.value.amountStart == a && TailOk(t, r.value) by {
      if r.Some? {
        var b: nat :| AmountOk(t, a, b) && r == Spaces(t, Currencies, i, a)(b);
        var c: nat :| StarStep(t, b, IsSpace, 0, |t|, c) && r == Currency(t, Currencies, i, a, b)(c);
        var e: nat :| AltAt(t, c, Currencies, e) && r == Finish(i, a, b, c)(e);
        assert r.value == Hit(i, a, b, c, e);
      }
    }
    assert forall h: Hit :: h.start == i && h.amountStart == a && TailOk(t, h) ==> r.Some? by {
      forall h: Hit | h.start == i && h.amountStart == a && TailOk(t, h)
        ensures r.Some?
      {
        assert Finish(i, a, h.amountEnd, h.currencyStart)(h.end).Some?;
        assert Currency(t, Currencies, i, a, h.amountEnd)(h.currencyStart).Some?;
        assert StarStep(t, h.amountEnd, IsSpace, 0, |t|, h.currencyStart);
        assert Spaces(t, Currencies, i, a)(h.amountEnd).Some?;
      }
    }
    r
  }

  /** The currency group settles on the first alternative that matches, and
      "EUR" matches wherever "Euro" does, so the group is "€" or "EUR" long. */
  lemma CurrencyNeverEuro(t: string, i: nat, a: nat, b: nat, c: nat)
    requires Currency(t, Currencies, i, a, b)(c).Some?
    ensures Currency(t, Currencies, i, a, b)(c).value.currencyStart == c
    ensures Currency(t, Currencies, i, a, b)(c).value.end - c in {1, 3}
  {
    var fin := Finish(i, a, b, c);
    var r := Alt(t, c, Currencies, fin);
    assert r == Currency(t, Currencies, i, a, b)(c);
    EuroLength(t, c, fin);
  }

  /** When the rest of the pattern cannot fail, the currency group takes one
      or three characters: "€" or "EUR", since "EUR" shadows "Euro". */
  lemma EuroLength(t: string, c: nat, fin: Cont<Hit>)
    requires Alt(t, c, Currencies, fin).Some?
    requires forall e: nat :: fin(e).Some?
    ensures exists e: nat :: e - c in {1, 3} && Alt(t, c, Currencies, fin) == fin(e)
  {
    EurPrefix();
    assert fin(c + |Currencies[1]|).Some?;
    AltShadowed(t, c, Currencies, fin, 1, 2);
  }

  /** "EUR" is "Euro" without its last letter, ignoring case. */
  lemma EurPrefix()
    ensures |Currencies[1]| == 3 < |Currencies[2]| && FoldStr(Currencies[1]) == FoldStr(Currencies[2])[..3]
  {
    assert FoldStr("EUR") == FoldStr("Euro")[..3];
  }

  /** Whatever the tail matches, group 3 is "€" or "EUR" long. */
  lemma TailNeverEuro(t: string, i: nat, a: nat)
    requires Tail(t, i, a).Some?
    ensures Tail(t, i, a).value.end - Tail(t, i, a).value.currencyStart in {1, 3}
  {
    var r := Tail(t, i, a);
    var b: nat :| AmountOk(t, a, b) && r == Spaces(t, Currencies, i, a)(b);
    var s := Star(t, b, IsSpace, 0, |t|, Currency(t, Currencies, i, a, b));
    assert r == s;
    var c: nat :| StarStep(t, b, IsSpace, 0, |t|, c) && s == Currency(t, Currencies, i, a, b)(c);
    CurrencyNeverEuro(t, i, a, b, c);
  }

  /** The pattern anchored at `i` (one step of the `re.search` scan). */
  function At(t: string, i: nat): (r: Option<Hit>)
    ensures r.Some? ==> r.value.start == i && Valid(t, r.value) && r == Tail(t, i, r.value.amountStart)
    ensures forall h: Hit :: h.start == i && Valid(t, h) ==> r.Some?
  {
    AtSound(t, i);
    AtComplete(t, i);
    Alt(t, i, Keys, AfterKey(t, i))
  }

  /** The tail of a match that started at `i`, from each position. */
  function TailFrom(t: string, i: nat): Cont<Hit>
  {
    (a: nat) => Tail(t, i, a)
  }

  /** `.*?` and the tail, after the keyword of a match that started at `i`. */
  function AfterKey(t: string, i: nat): Cont<Hit>
  {
    (k: nat) => Lazy(t, k, TailFrom(t, i))
  }

  lemma AtSound(t: string, i: nat)
    ensures var r := Alt(t, i, Keys, AfterKey(t, i));
            r.Some? ==> r.value.start == i && Valid(t, r.value) && r == Tail(t, i, r.value.amountStart)
  {
    var r := Alt(t, i, Keys, AfterKey(t, i));
    if r.Some? {
      var k: nat :| AltAt(t, i, Keys, k) && r == AfterKey(t, i)(k);
      var l := Lazy(t, k, TailFrom(t, i));
      assert r == l;
      var a: nat :| Gap(t, k, a) && l == TailFrom(t, i)(a);
      var h := Tail(t, i, a);
      assert r == h;
      assert h.value.start == i && h.value.amountStart == a && TailOk(t, h.value);
      assert AltAt(t, i, Keys, k) && Gap(t, k, h.value.amountStart);
    }
  }

  lemma AtComplete(t: string, i: nat)
    ensures forall h: Hit :: h.start == i && Valid(t, h) ==> Alt(t, i, Keys, AfterKey(t, i)).Some?
  {
    forall h: Hit | h.start == i && Valid(t, h)
      ensures Alt(t, i, Keys, AfterKey(t, i)).Some?
    {
      var k: nat :| AltAt(t, i, Keys, k) && Gap(t, k, h.amountStart) && TailOk(t, h);
      assert TailFrom(t, i)(h.amountStart).Some?;
      assert Lazy(t, k, TailFrom(t, i)).Some?;
      assert AfterKey(t, i)(k).Some?;
    }
  }

  /** A match lies inside the text, in order, and is not empty. */
  lemma ValidBounds(t: string, h: Hit)
    requires Valid(t, h)
    ensures h.start < h.amountStart + 2 <= h.amountEnd <= h.amountStart + 7
    ensures h.amountEnd <= h.currencyStart < h.end <= |t|
  {
    var m: nat, n: nat :|
      && h.amountStart + 2 <= m <= h.amountStart + 3 && AllIn(t, h.amountStart, m, IsDigit)
      && m <= n <= m + 1 && AllIn(t, m, n, IsSeparator)
      && n <= h.amountEnd <= n + 3 && AllIn(t, n, h.amountEnd, IsDigit);
  }

  /** The per-position matcher that the scan runs at every start. */
  function Attempt(t: string): Cont<Hit>
  {
    (i: nat) => At(t, i)
  }

  lemma AttemptMeansValid(t: string)
    ensures forall i: nat :: Attempt(t)(i).Some? ==> Attempt(t)(i).value.start == i && Valid(t, Attempt(t)(i).value)
    ensures forall h: Hit :: Valid(t, h) ==> h.start <= |t| && Attempt(t)(h.start).Some?
  {
    forall h: Hit | Valid(t, h)
      ensures h.start <= |t| && Attempt(t)(h.start).Some?
    {
      ValidBounds(t, h);
    }
  }

  /** `re.search`: the leftmost match, with the groups the engine picks there. */
  function Search(t: string): (r: Option<Hit>)
    ensures r.Some? ==> Valid(t, r.value) && Chosen(t, r.value) && r == At(t, r.value.start)
    ensures r.Some? ==> forall h: Hit :: Valid(t, h) ==> r.value.start <= h.start
    ensures r.None? <==> forall h: Hit :: !Valid(t, h)
  {
    AttemptMeansValid(t);
    var r := Leftmost(t, 0, Attempt(t));
    assert r.Some? ==> forall h: Hit :: Valid(t, h) ==> r.value.0 <= h.start by {
      if r.Some? {
        forall h: Hit | Valid(t, h)
          ensures r.value.0 <= h.start
        {
          LeftmostFirst(t, 0, Attempt(t), h.start);
        }
      }
    }
    assert r.Some? ==> Chosen(t, r.value.1) by {
      if r.Some? {
        AtChosen(t, r.value.0);
      }
    }
    match r
    case None => None
    case Some((_, h)) => Some(h)
  }

  /** The alternative "Euro" can never be the one reported: "EUR" comes
      first, matches wherever "Euro" does (ignoring case), and nothing follows
      group 3, so group 3 is always one or three characters long. */
  lemma EuroShadowed(t: string)
    requires Search(t).Some?
    ensures Search(t).value.end - Search(t).value.currencyStart in {1, 3}
  {
    var h := Search(t).value;
    TailNeverEuro(t, h.start, h.amountStart);
  }

  /** Without "sigorta" or "teminat" in the text, ignoring case, nothing matches. */
  lemma NoKeyNoMatch(t: string)
    requires !Occurs(FoldStr(t), "sigorta") && !Occurs(FoldStr(t), "teminat")
    ensures Search(t).None?
  {
    FoldStrFixed(Keys[0]);
    FoldStrFixed(Keys[1]);
    NoAltAt(t, Keys);
  }

  /** `[\.,]` or `\d`: a character the amount group can hold. */
  predicate IsAmountChar(c: char)
  {
    IsDigit(c) || IsSeparator(c)
  }

  /** Group 3 spans `t[c..e]` and is the first currency, in the order the
      pattern lists them, that matches at `c`: nothing follows the group, so
      the engine keeps the first alternative that fits. */
  ghost predicate FirstCurrency(t: string, c: nat, e: nat)
  {
    exists j ::
      && 0 <= j < |Currencies| && CiLitAt(t, c, Currencies[j]) && e == c + |Currencies[j]|
      && forall j' :: 0 <= j' < j ==> !CiLitAt(t, c, Currencies[j'])
  }

  /** No tail, `(\d{2,3}[\.,]?\d{0,3})\s*(€|EUR|Euro)`, starts in `t[k..a]`. */
  ghost predicate NoTailBefore(t: string, k: nat, a: nat)
  {
    forall h: Hit :: k <= h.amountStart < a ==> !TailOk(t, h)
  }

  /** `h` is the match the engine reports at `h.start`: after the keyword,
      `.*?` stops at the first position where an amount and a currency
      follow, so group 2 starts as early as it can, and group 3 is the first
      currency that fits. */
  ghost predicate Chosen(t: string, h: Hit)
  {
    && (exists k: nat :: AltAt(t, h.start, Keys, k) && Gap(t, k, h.amountStart) && NoTailBefore(t, k, h.amountStart) && TailOk(t, h))
    && FirstCurrency(t, h.currencyStart, h.end)
  }

  /** The engine's match at `i` is the chosen one. */
  lemma AtChosen(t: string, i: nat)
    requires At(t, i).Some?
    ensures At(t, i).value.start == i && Chosen(t, At(t, i).value)
  {
    var r := Alt(t, i, Keys, AfterKey(t, i));
    var k: nat :| AltAt(t, i, Keys, k) && r == AfterKey(t, i)(k);
    var a := LazyStop(t, k, TailFrom(t, i));
    NoTailRange(t, i, k, a);
    assert r == Tail(t, i, a);
    TailFirstCurrency(t, i, a);
  }

  /** Where the tail fails all along `t[k..a]`, none starts there. */
  lemma NoTailRange(t: string, i: nat, k: nat, a: nat)
    requires forall d :: k <= d < a ==> TailFrom(t, i)(d).None?
    ensures NoTailBefore(t, k, a)
  {
    forall h: Hit | k <= h.amountStart < a
      ensures !TailOk(t, h)
    {
      NoTail(t, i, h);
    }
  }

  /** Where the tail fails, none starts. */
  lemma NoTail(t: string, i: nat, h: Hit)
    requires TailFrom(t, i)(h.amountStart).None?
    ensures !TailOk(t, h)
  {
    var h' := h.(start := i);
    assert Tail(t, i, h.amountStart).None?;
    assert TailOk(t, h) ==> TailOk(t, h');
  }

  /** Whatever the tail matches, group 3 is the first currency that fits. */
  lemma TailFirstCurrency(t: string, i: nat, a: nat)
    requires Tail(t, i, a).Some?
    ensures FirstCurrency(t, Tail(t, i, a).value.currencyStart, Tail(t, i, a).value.end)
  {
    var r := Tail(t, i, a);
    var b: nat :| AmountOk(t, a, b) && r == Spaces(t, Currencies, i, a)(b);
    var s := Star(t, b, IsSpace, 0, |t|, Currency(t, Currencies, i, a, b));
    assert r == s;
    var c: nat :| StarStep(t, b, IsSpace, 0, |t|, c) && s == Currency(t, Currencies, i, a, b)(c);
    CurrencyFirst(t, i, a, b, c);
  }

  /** The currency group keeps the first alternative that matches, since the
      rest of the pattern cannot fail after it. */
  lemma CurrencyFirst(t: string, i: nat, a: nat, b: nat, c: nat)
    requires Currency(t, Currencies, i, a, b)(c).Some?
    ensures var h := Currency(t, Currencies, i, a, b)(c).value;
            h.currencyStart == c && FirstCurrency(t, c, h.end)
  {
    var fin := Finish(i, a, b, c);
    var r := Alt(t, c, Currencies, fin);
    assert r == Currency(t, Currencies, i, a, b)(c);
    AltFirst(t, c, Currencies, fin);
    var j :| FirstAlt(t, c, Currencies, fin, j) && r == fin(c + |Currencies[j]|);
    FirstFits(t, c, fin, j);
  }

  /** When the rest cannot fail, the first alternative after which it
      succeeds is the first alternative that fits. */
  lemma FirstFits(t: string, c: nat, fin: Cont<Hit>, j: int)
    requires FirstAlt(t, c, Currencies, fin, j)
    requires forall e: nat :: fin(e).Some?
    ensures 0 <= j < |Currencies| && CiLitAt(t, c, Currencies[j])
    ensures forall j' :: 0 <= j' < j ==> !CiLitAt(t, c, Currencies[j'])
  {
    forall j' | 0 <= j' < j
      ensures !CiLitAt(t, c, Currencies[j'])
    {
      assert fin(c + |Currencies[j']|).Some?;
    }
  }

  /** The chosen match at a start, when there is one, is unique: the
      keywords start with different letters, the first position where a
      tail follows is unique, and so are the groups of the tail there. */
  lemma ChosenUnique(t: string, h: Hit, g: Hit)
    requires Chosen(t, h) && Chosen(t, g) && h.start == g.start
    ensures h == g
  {
    var k: nat :| AltAt(t, h.start, Keys, k) && Gap(t, k, h.amountStart) && NoTailBefore(t, k, h.amountStart) && TailOk(t, h);
    var k': nat :| AltAt(t, g.start, Keys, k') && Gap(t, k', g.amountStart) && NoTailBefore(t, k', g.amountStart) && TailOk(t, g);
    SameKey(t, h.start, k, k');
    FirstTail(t, k, h, g);
    TailUnique(t, h, g);
  }

  /** Two tails that are each the first from `k` on start at the same place. */
  lemma FirstTail(t: string, k: nat, h: Hit, g: Hit)
    requires Gap(t, k, h.amountStart) && NoTailBefore(t, k, h.amountStart) && TailOk(t, h)
    requires Gap(t, k, g.amountStart) && NoTailBefore(t, k, g.amountStart) && TailOk(t, g)
    ensures h.amountStart == g.amountStart
  {
  }

  /** Only one keyword matches at a position. */
  lemma SameKey(t: string, i: nat, k: nat, k': nat)
    requires AltAt(t, i, Keys, k) && AltAt(t, i, Keys, k')
    ensures k == k'
  {
    KeysDistinct();
    AltAtUnique(t, i, Keys, k, k');
  }

  /** A tail from a given position has its groups in one place: the amount
      runs to the first character that is neither a digit nor a separator
      (white space or a currency comes next), the white space to the first
      other character, and group 3 is the first currency that fits. */
  lemma TailUnique(t: string, h: Hit, g: Hit)
    requires TailOk(t, h) && FirstCurrency(t, h.currencyStart, h.end)
    requires TailOk(t, g) && FirstCurrency(t, g.currencyStart, g.end)
    requires h.amountStart == g.amountStart
    ensures h.amountEnd == g.amountEnd && h.currencyStart == g.currencyStart && h.end == g.end
  {
    CurrencyStart(t, h.currencyStart, h.end);
    CurrencyStart(t, g.currencyStart, g.end);
    AmountEnd(t, h.amountEnd, h.currencyStart);
    AmountEnd(t, g.amountEnd, g.currencyStart);
    AmountChars(t, h.amountStart, h.amountEnd);
    AmountChars(t, g.amountStart, g.amountEnd);
    RunEndUnique(t, h.amountStart, h.amountEnd, g.amountEnd, IsAmountChar);
    RunEndUnique(t, h.amountEnd, h.currencyStart, g.currencyStart, IsSpace);
    SameCurrency(t, h.currencyStart, h.end, g.end);
  }

  /** The amount group holds only digits and separators. */
  lemma AmountChars(t: string, a: nat, b: nat)
    requires AmountOk(t, a, b)
    ensures AllIn(t, a, b, IsAmountChar)
  {
    var m: nat, n: nat :|
      && a + 2 <= m <= a + 3 && AllIn(t, a, m, IsDigit)
      && m <= n <= m + 1 && AllIn(t, m, n, IsSeparator)
      && n <= b <= n + 3 && AllIn(t, n, b, IsDigit);
  }

  /** A currency starts with neither a digit, a separator nor white space. */
  lemma CurrencyStart(t: string, c: nat, e: nat)
    requires AltAt(t, c, Currencies, e)
    ensures c < |t| && !IsAmountChar(t[c]) && !IsSpace(t[c])
  {
    var j :| 0 <= j < |Currencies| && CiLitAt(t, c, Currencies[j]) && e == c + |Currencies[j]|;
    CiLitAtFirst(t, c, Currencies[j]);
    assert Currencies[0][0] == '€' && Currencies[1][0] == 'E' && Currencies[2][0] == 'E';
    FoldClass(t[c]);
  }

  /** The white space before a currency starts with a character that the
      amount group cannot hold. */
  lemma AmountEnd(t: string, b: nat, c: nat)
    requires AllIn(t, b, c, IsSpace) && c < |t| && !IsAmountChar(t[c]) && !IsSpace(t[c])
    ensures b < |t| && !IsAmountChar(t[b])
  {
    if b < c {
      assert IsSpace(t[b]);
    }
  }

  /** Only one currency is the first that fits at a position. */
  lemma SameCurrency(t: string, c: nat, e: nat, f: nat)
    requires FirstCurrency(t, c, e) && FirstCurrency(t, c, f)
    ensures e == f
  {
    var j :| 0 <= j < |Currencies| && CiLitAt(t, c, Currencies[j]) && e == c + |Currencies[j]|
      && forall j' :: 0 <= j' < j ==> !CiLitAt(t, c, Currencies[j']);
    var m :| 0 <= m < |Currencies| && CiLitAt(t, c, Currencies[m]) && f == c + |Currencies[m]|
      && forall j' :: 0 <= j' < m ==> !CiLitAt(t, c, Currencies[j']);
  }

  /** The keywords start with letters that differ, ignoring case. */
  lemma KeysDistinct()
    ensures forall j :: 0 <= j < |Keys| ==> |Keys[j]| > 0
    ensures forall j, m :: 0 <= j < m < |Keys| ==> Fold(Keys[j][0]) != Fold(Keys[m][0])
  {
    assert Keys[0][0] == 's' && Keys[1][0] == 't';
  }

  /** The engine's match at `h.start` is `h` exactly when `h` is the chosen
      match there. */
  lemma AtChosenIff(t: string, h: Hit)
    ensures At(t, h.start) == Some(h) <==> Chosen(t, h)
  {
    if Chosen(t, h) {
      assert Valid(t, h);
      AtChosen(t, h.start);
      ChosenUnique(t, At(t, h.start).value, h);
    } else if At(t, h.start) == Some(h) {
      AtChosen(t, h.start);
    }
  }

  /** No match starts before `s`. */
  ghost predicate Earliest(t: string, s: nat)
  {
    forall g: Hit :: Valid(t, g) ==> s <= g.start
  }

  /** The search reports `h` exactly when no match starts before it and it
      is the match the engine chooses at its start. */
  lemma SearchIff(t: string, h: Hit)
    ensures Search(t) == Some(h) <==> Chosen(t, h) && Earliest(t, h.start)
  {
    if Chosen(t, h) && Earliest(t, h.start) {
      assert Valid(t, h);
      var r := Search(t);
      ChosenUnique(t, r.value, h);
    }
  }
}
