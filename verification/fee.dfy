/** The fee pattern of the rule extractor,
        (vize|harç|ücret).*?(\d{2,3})\s*(€|EUR|TL|USD|\$)
    run with `re.findall` and IGNORECASE. */
module Fee {
  import opened Text
  import opened Regex
  import opened Amounts

  const Keys: seq<string> := ["vize", "harç", "ücret"]
  const Currencies: seq<string> := ["€", "EUR", "TL", "USD", "$"]

  /** `(\d{2,3})\s*(€|EUR|TL|USD|\$)` with the groups where `h` says. */
  ghost predicate TailOk(t: string, h: Hit)
  {
    && h.amountStart + 2 <= h.amountEnd <= h.amountStart + 3
    && AllIn(t, h.amountStart, h.amountEnd, IsDigit)
    && AllIn(t, h.amountEnd, h.currencyStart, IsSpace)
    && AltAt(t, h.currencyStart, Currencies, h.end)
  }

  /** The whole pattern matches `t[h.start..h.end]` with the groups of `h`. */
  ghost predicate Valid(t: string, h: Hit)
  {
    exists k: nat :: AltAt(t, h.start, Keys, k) && Gap(t, k, h.amountStart) && TailOk(t, h)
  }

  /** `(\d{2,3})\s*(€|EUR|TL|USD|\$)` from `a`, for a match that started at `i`. */
  function Tail(t: string, i: nat, a: nat): (r: Option<Hit>)
    ensures r.Some? ==> r.value.start == i && r.value.amountStart == a && TailOk(t, r.value)
    ensures forall h: Hit :: h.start == i && h.amountStart == a && TailOk(t, h) ==> r.Some?
  {
    TailSound(t, i, a);
    TailComplete(t, i, a);
    Star(t, a, IsDigit, 2, 3, Spaces(t, Currencies, i, a))
  }

  lemma TailSound(t: string, i: nat, a: nat)
    ensures var r := Star(t, a, IsDigit, 2, 3, Spaces(t, Currencies, i, a));
            r.Some? ==> r.value.start == i && r.value.amountStart == a && TailOk(t, r.value)
  {
    var r := Star(t, a, IsDigit, 2, 3, Spaces(t, Currencies, i, a));
    if r.Some? {
      var b: nat :| StarStep(t, a, IsDigit, 2, 3, b) && r == Spaces(t, Currencies, i, a)(b);
      var s := Star(t, b, IsSpace, 0, |t|, Currency(t, Currencies, i, a, b));
      assert r == s;
      var c: nat :| StarStep(t, b, IsSpace, 0, |t|, c) && s == Currency(t, Currencies, i, a, b)(c);
      var u := Alt(t, c, Currencies, Finish(i, a, b, c));
      assert r == u;
      var e: nat :| AltAt(t, c, Currencies, e) && u == Finish(i, a, b, c)(e);
      assert r.value == Hit(i, a, b, c, e);
    }
  }

  lemma TailComplete(t: string, i: nat, a: nat)
    ensures forall h: Hit :: h.start == i && h.amountStart == a && TailOk(t, h) ==>
              Star(t, a, IsDigit, 2, 3, Spaces(t, Currencies, i, a)).Some?
  {
    forall h: Hit | h.start == i && h.amountStart == a && TailOk(t, h)
      ensures Star(t, a, IsDigit, 2, 3, Spaces(t, Currencies, i, a)).Some?
    {
      assert Finish(i, a, h.amountEnd, h.currencyStart)(h.end).Some?;
      assert Currency(t, Currencies, i, a, h.amountEnd)(h.currencyStart).Some?;
      assert StarStep(t, h.amountEnd, IsSpace, 0, |t|, h.currencyStart);
      assert Spaces(t, Currencies, i, a)(h.amountEnd).Some?;
      assert StarStep(t, a, IsDigit, 2, 3, h.amountEnd);
    }
  }

  /** The pattern anchored at `i` (one step of the `re.findall` scan). */
  function At(t: string, i: nat): (r: Option<Hit>)
    ensures r.Some? ==> r.value.start == i && Valid(t, r.value)
    ensures forall h: Hit :: h.start == i && Valid(t, h) ==> r.Some?
  {
    AtSound(t, i);
    AtComplete(t, i);
    Alt(t, i, Keys, AfterKey(t, i))
  }

  /** The tail of a match that started at `i`, from each position. */
  function TailFrom(t: string, i: nat): Cont<Hit>
  {
    (a: nat) => Tail(t, i, a)
  }

  /** `.*?` and the tail, after the keyword of a match that started at `i`. */
  function AfterKey(t: string, i: nat): Cont<Hit>
  {
    (k: nat) => Lazy(t, k, TailFrom(t, i))
  }

  lemma AtSound(t: string, i: nat)
    ensures var r := Alt(t, i, Keys, AfterKey(t, i));
            r.Some? ==> r.value.start == i && Valid(t, r.value)
  {
    var r := Alt(t, i, Keys, AfterKey(t, i));
    if r.Some? {
      var k: nat :| AltAt(t, i, Keys, k) && r == AfterKey(t, i)(k);
      var l := Lazy(t, k, TailFrom(t, i));
      assert r == l;
      var a: nat :| Gap(t, k, a) && l == TailFrom(t, i)(a);
      var h := Tail(t, i, a);
      assert r == h;
      assert h.value.start == i && h.value.amountStart == a && TailOk(t, h.value);
      assert AltAt(t, i, Keys, k) && Gap(t, k, h.value.amountStart);
    }
  }

  lemma AtComplete(t: string, i: nat)
    ensures forall h: Hit :: h.start == i && Valid(t, h) ==> Alt(t, i, Keys, AfterKey(t, i)).Some?
  {
    forall h: Hit | h.start == i && Valid(t, h)
      ensures Alt(t, i, Keys, AfterKey(t, i)).Some?
    {
      var k: nat :| AltAt(t, i, Keys, k) && Gap(t, k, h.amountStart) && TailOk(t, h);
      assert TailFrom(t, i)(h.amountStart).Some?;
      assert Lazy(t, k, TailFrom(t, i)).Some?;
      assert AfterKey(t, i)(k).Some?;
    }
  }

  /** The groups of a match: two or three digits, white space, and one of
      the currencies. */
  lemma ValidTail(t: string, h: Hit)
    requires Valid(t, h)
    ensures h.amountStart + 2 <= h.amountEnd <= h.amountStart + 3 && h.amountEnd <= h.currencyStart < h.end <= |t|
    ensures forall k :: h.amountStart <= k < h.amountEnd ==> IsDigit(t[k])
    ensures exists j :: 0 <= j < |Currencies| && CiLitAt(t, h.currencyStart, Currencies[j])
                        && h.end == h.currencyStart + |Currencies[j]|
  {
  }

  /** A match lies inside the text, in order, and is not empty. */
  lemma ValidBounds(t: string, h: Hit)
    requires Valid(t, h)
    ensures h.start < h.amountStart + 2 <= h.amountEnd <= h.currencyStart < h.end <= |t|
  {
  }

  /** The per-position matcher that the scan runs at every start. */
  function Attempt(t: string): Cont<Hit>
  {
    (i: nat) => At(t, i)
  }

  lemma AttemptMeansValid(t: string)
    ensures forall i: nat :: Attempt(t)(i).Some? ==> Attempt(t)(i).value.start == i && Valid(t, Attempt(t)(i).value)
    ensures forall h: Hit :: Valid(t, h) ==> h.start <= |t| && Attempt(t)(h.start).Some?
  {
    forall h: Hit | Valid(t, h)
      ensures h.start <= |t| && Attempt(t)(h.start).Some?
    {
      ValidBounds(t, h);
    }
  }

  /** The leftmost match that starts at `from` or later. */
  function Search(t: string, from: nat): (r: Option<Hit>)
    ensures r.Some? ==> Valid(t, r.value) && Chosen(t, r.value) && from <= r.value.start
    ensures r.Some? ==> forall h: Hit :: Valid(t, h) && from <= h.start ==> r.value.start <= h.start
    ensures r.None? <==> forall h: Hit :: Valid(t, h) ==> h.start < from
  {
    AttemptMeansValid(t);
    var r := Leftmost(t, from, Attempt(t));
    assert r.Some? ==> Chosen(t, r.value.1) by {
      if r.Some? {
        AtChosen(t, r.value.0);
      }
    }
    assert r.Some? ==> forall h: Hit :: Valid(t, h) && from <= h.start ==> r.value.0 <= h.start by {
      if r.Some? {
        forall h: Hit | Valid(t, h) && from <= h.start
          ensures r.value.0 <= h.start
        {
          LeftmostFirst(t, from, Attempt(t), h.start);
        }
      }
    }
    match r
    case None => None
    case Some((_, h)) => Some(h)
  }

  /** `re.findall`: the leftmost match from `from`, then the scan resumes where
      that match ended, so the matches do not overlap. */
  function FindAll(t: string, from: nat): (r: seq<Hit>)
    ensures |r| > 0 ==> from <= r[0].start
    ensures r == [] <==> forall h: Hit :: Valid(t, h) ==> h.start < from
    decreases |t| - from
  {
    match Search(t, from)
    case None => []
    case Some(h) =>
      ValidBounds(t, h);
      [h] + FindAll(t, h.end)
  }

  /** Every element `re.findall` returns is a match of the pattern, with
      the groups the engine picks at its start. */
  lemma {:induction false} FindAllValid(t: string, from: nat)
    ensures forall k :: 0 <= k < |FindAll(t, from)| ==> Valid(t, FindAll(t, from)[k]) && Chosen(t, FindAll(t, from)[k])
    decreases |t| - from
  {
    match Search(t, from)
    case None =>
    case Some(h) =>
      ValidBounds(t, h);
      FindAllValid(t, h.end);
      var rest := FindAll(t, h.end);
      var r := FindAll(t, from);
      assert r == [h] + rest;
      forall k | 0 <= k < |r|
        ensures Valid(t, r[k]) && Chosen(t, r[k])
      {
        if k > 0 {
          assert r[k] == rest[k - 1];
        }
      }
  }

  /** Position `s` lies inside one of the matches `r`. */
  ghost predicate Covered(r: seq<Hit>, s: nat)
  {
    exists k :: 0 <= k < |r| && r[k].start <= s < r[k].end
  }

  /** `re.findall` skips no match: every match that starts at `from` or
      later starts inside one of the reported matches, so none starts
      between two reported matches or after the last one. */
  lemma {:induction false} FindAllComplete(t: string, from: nat)
    ensures forall h: Hit :: Valid(t, h) && from <= h.start ==> Covered(FindAll(t, from), h.start)
    decreases |t| - from
  {
    match Search(t, from)
    case None =>
    case Some(m) =>
      ValidBounds(t, m);
      FindAllComplete(t, m.end);
      var rest := FindAll(t, m.end);
      assert FindAll(t, from) == [m] + rest;
      forall h: Hit | Valid(t, h) && from <= h.start
        ensures Covered(FindAll(t, from), h.start)
      {
        CoveredStep([m] + rest, m, rest, h.start);
      }
  }

  /** One step of `FindAllComplete`: a start before the end of the first
      match lies inside it, and a later one is covered by the rest. */
  lemma CoveredStep(r: seq<Hit>, m: Hit, rest: seq<Hit>, s: nat)
    requires r == [m] + rest && m.start <= s
    requires m.end <= s ==> Covered(rest, s)
    ensures Covered(r, s)
  {
    if s < m.end {
      assert r[0] == m;
    } else {
      var k :| 0 <= k < |rest| && rest[k].start <= s < rest[k].end;
      assert r[k + 1] == rest[k];
    }
  }

  /** The matches come in text order and none overlaps the next. */
  lemma {:induction false} FindAllOrdered(t: string, from: nat)
    ensures forall k :: 0 <= k < |FindAll(t, from)| - 1 ==> FindAll(t, from)[k].end <= FindAll(t, from)[k + 1].start
    decreases |t| - from
  {
    match Search(t, from)
    case None =>
    case Some(h) =>
      ValidBounds(t, h);
      FindAllOrdered(t, h.end);
      assert FindAll(t, from) == [h] + FindAll(t, h.end);
  }

  /** Without "vize", "harç" or "ücret" in the text, ignoring case, nothing matches. */
  lemma NoKeyNoMatch(t: string)
    requires !Occurs(FoldStr(t), "vize") && !Occurs(FoldStr(t), "harç") && !Occurs(FoldStr(t), "ücret")
    ensures FindAll(t, 0) == []
  {
    NoKey(t);
    assert forall h: Hit :: !Valid(t, h);
  }

  /** Without "vize", "harç" or "ücret" in the text, ignoring case, the keyword
      group matches nowhere. */
  lemma NoKey(t: string)
    requires !Occurs(FoldStr(t), "vize") && !Occurs(FoldStr(t), "harç") && !Occurs(FoldStr(t), "ücret")
    ensures forall i: nat, e: nat :: !AltAt(t, i, Keys, e)
  {
    FoldStrFixed(Keys[0]);
    FoldStrFixed(Keys[1]);
    FoldStrFixed(Keys[2]);
    NoAltAt(t, Keys);
  }

  /** Every currency is one to three characters long. */
  lemma CurrencyLengths()
    ensures forall j :: 0 <= j < |Currencies| ==> 0 < |Currencies[j]| <= 3
  {
  }

  /** No tail, `(\d{2,3})\s*(currency)`, starts in `t[k..a]`. */
  ghost predicate NoTailBefore(t: string, k: nat, a: nat)
  {
    forall h: Hit :: k <= h.amountStart < a ==> !TailOk(t, h)
  }

  /** `h` is the match the engine reports at `h.start`: after the keyword,
      `.*?` stops at the first position where the amount and the currency
      follow, so group 2 starts as early as it can. */
  ghost predicate Chosen(t: string, h: Hit)
  {
    exists k: nat :: AltAt(t, h.start, Keys, k) && Gap(t, k, h.amountStart) && NoTailBefore(t, k, h.amountStart) && TailOk(t, h)
  }

  /** The engine's match at `i` is the chosen one. */
  lemma AtChosen(t: string, i: nat)
    requires At(t, i).Some?
    ensures At(t, i).value.start == i && Chosen(t, At(t, i).value)
  {
    var r := Alt(t, i, Keys, AfterKey(t, i));
    var k: nat :| AltAt(t, i, Keys, k) && r == AfterKey(t, i)(k);
    var a := LazyStop(t, k, TailFrom(t, i));
    NoTailRange(t, i, k, a);
    assert r == Tail(t, i, a);
  }

  /** Where the tail fails all along `t[k..a]`, none starts there. */
  lemma NoTailRange(t: string, i: nat, k: nat, a: nat)
    requires forall d :: k <= d < a ==> TailFrom(t, i)(d).None?
    ensures NoTailBefore(t, k, a)
  {
    forall h: Hit | k <= h.amountStart < a
      ensures !TailOk(t, h)
    {
      NoTail(t, i, h);
    }
  }

  /** Where the tail fails, none starts. */
  lemma NoTail(t: string, i: nat, h: Hit)
    requires TailFrom(t, i)(h.amountStart).None?
    ensures !TailOk(t, h)
  {
    var h' := h.(start := i);
    assert Tail(t, i, h.amountStart).None?;
    assert TailOk(t, h) ==> TailOk(t, h');
  }

  /** The chosen match at a start, when there is one, is unique: the
      keywords start with different letters, the first position where a
      tail follows is unique, and so are the groups of the tail there. */
  lemma ChosenUnique(t: string, h: Hit, g: Hit)
    requires Chosen(t, h) && Chosen(t, g) && h.start == g.start
    ensures h == g
  {
    var k: nat :| AltAt(t, h.start, Keys, k) && Gap(t, k, h.amountStart) && NoTailBefore(t, k, h.amountStart) && TailOk(t, h);
    var k': nat :| AltAt(t, g.start, Keys, k') && Gap(t, k', g.amountStart) && NoTailBefore(t, k', g.amountStart) && TailOk(t, g);
    SameKey(t, h.start, k, k');
    FirstTail(t, k, h, g);
    TailUnique(t, h, g);
  }

  /** Two tails that are each the first from `k` on start at the same place. */
  lemma FirstTail(t: string, k: nat, h: Hit, g: Hit)
    requires Gap(t, k, h.amountStart) && NoTailBefore(t, k, h.amountStart) && TailOk(t, h)
    requires Gap(t, k, g.amountStart) && NoTailBefore(t, k, g.amountStart) && TailOk(t, g)
    ensures h.amountStart == g.amountStart
  {
  }

  /** Only one keyword matches at a position. */
  lemma SameKey(t: string, i: nat, k: nat, k': nat)
    requires AltAt(t, i, Keys, k) && AltAt(t, i, Keys, k')
    ensures k == k'
  {
    KeysDistinct();
    AltAtUnique(t, i, Keys, k, k');
  }

  /** A tail from a given position has its groups in one place: the digits
      run to the first non-digit (a fourth digit leaves no room for the
      currency), the white space to the first other character, and the
      currencies start with different characters. */
  lemma TailUnique(t: string, h: Hit, g: Hit)
    requires TailOk(t, h) && TailOk(t, g) && h.amountStart == g.amountStart
    ensures h.amountEnd == g.amountEnd && h.currencyStart == g.currencyStart && h.end == g.end
  {
    CurrencyStart(t, h.currencyStart, h.end);
    CurrencyStart(t, g.currencyStart, g.end);
    AmountEnd(t, h.amountEnd, h.currencyStart);
    AmountEnd(t, g.amountEnd, g.currencyStart);
    RunEndUnique(t, h.amountStart, h.amountEnd, g.amountEnd, IsDigit);
    RunEndUnique(t, h.amountEnd, h.currencyStart, g.currencyStart, IsSpace);
    SameCurrency(t, h.currencyStart, h.end, g.end);
  }

  /** A currency starts with neither a digit nor white space. */
  lemma CurrencyStart(t: string, c: nat, e: nat)
    requires AltAt(t, c, Currencies, e)
    ensures c < |t| && !IsDigit(t[c]) && !IsSpace(t[c])
  {
    CurrenciesDistinct();
    AltAtNotDigitOrSpace(t, c, Currencies, e);
  }

  /** The white space before a currency starts with a character that is not a digit. */
  lemma AmountEnd(t: string, b: nat, c: nat)
    requires AllIn(t, b, c, IsSpace) && c < |t| && !IsDigit(t[c]) && !IsSpace(t[c])
    ensures b < |t| && !IsDigit(t[b])
  {
    if b < c {
      assert IsSpace(t[b]);
    }
  }

  /** Only one currency matches at a position. */
  lemma SameCurrency(t: string, c: nat, e: nat, f: nat)
    requires AltAt(t, c, Currencies, e) && AltAt(t, c, Currencies, f)
    ensures e == f
  {
    CurrenciesDistinct();
    AltAtUnique(t, c, Currencies, e, f);
  }

  /** The keywords start with letters that differ, ignoring case. */
  lemma KeysDistinct()
    ensures forall j :: 0 <= j < |Keys| ==> |Keys[j]| > 0
    ensures forall j, m :: 0 <= j < m < |Keys| ==> Fold(Keys[j][0]) != Fold(Keys[m][0])
  {
    assert Keys[0][0] == 'v' && Keys[1][0] == 'h' && Keys[2][0] == 'ü';
  }

  /** The currencies start with characters that differ, ignoring case, and
      with neither a digit nor white space. */
  lemma CurrenciesDistinct()
    ensures forall j :: 0 <= j < |Currencies| ==> |Currencies[j]| > 0 && !IsDigit(Fold(Currencies[j][0])) && !IsSpace(Fold(Currencies[j][0]))
    ensures forall j, m :: 0 <= j < m < |Currencies| ==> Fold(Currencies[j][0]) != Fold(Currencies[m][0])
  {
    assert Currencies[0][0] == '€' && Currencies[1][0] == 'E' && Currencies[2][0] == 'T';
    assert Currencies[3][0] == 'U' && Currencies[4][0] == '$';
  }

  /** The engine's match at `h.start` is `h` exactly when `h` is the chosen
      match there. */
  lemma AtChosenIff(t: string, h: Hit)
    ensures At(t, h.start) == Some(h) <==> Chosen(t, h)
  {
    if Chosen(t, h) {
      assert Valid(t, h);
      AtChosen(t, h.start);
      ChosenUnique(t, At(t, h.start).value, h);
    } else if At(t, h.start) == Some(h) {
      AtChosen(t, h.start);
    }
  }

  /** No match starts in `t[from..s]`. */
  ghost predicate EarliestFrom(t: string, from: nat, s: nat)
  {
    forall g: Hit :: Valid(t, g) && from <= g.start ==> s <= g.start
  }

  /** The search from `from` reports `h` exactly when `h` starts at `from`
      or later, no match starts between `from` and it, and it is the match
      the engine chooses at its start. */
  lemma SearchIff(t: string, from: nat, h: Hit)
    ensures Search(t, from) == Some(h) <==> Chosen(t, h) && from <= h.start && EarliestFrom(t, from, h.start)
  {
    if Chosen(t, h) && from <= h.start && EarliestFrom(t, from, h.start) {
      assert Valid(t, h);
      var r := Search(t, from);
      ChosenUnique(t, r.value, h);
    }
  }
}
