/** The rule extractor: the five questions it answers about the text of a
    visa-requirements document. Each operation reads the whole text; the
    patterns it runs are modelled in `Passport`, `Photo`, `Fee`, `Insurance`
    and `Checklist`. */
module Analyzer {
  import opened Text
  import opened Regex
  import opened Amounts
  import Passport
  import Photo
  import Fee
  import Insurance

  // The texts of the rules. Their first characters tell the rules apart
  // (`ArrangeFingerprint`, `FingerprintIff`); the longer ones are joined
  // from pieces so that those characters stand out.
  const PassportLabel: string := "\U{26A0}\U{FE0F} Pasaport Geçerliliği: "
  const PassportFallback: string := PassportLabel + "En az " + "6 ay önerilir (Dokümanda bulunamadı)"
  const PhotoLabel: string := "\U{1F4F8} Fotoğraf: "
  const FingerprintRule: string := "Fingerprint: " + "Son 59 ayda verilmemişse şahsen başvuru gerekir."
  const NoRule: string := "Ek kural bulunamadı."
  const NotSpecified: string := "Belirtilmemiş"
  const DefaultCoverage: string := "30.000 € (Standart)"

  /** `t[i..e]` is a slice of `t`: the positions are in order and within the text. */
  predicate InBounds(t: string, i: nat, e: nat)
  {
    i <= e <= |t|
  }

  // ---------------------------------------------------------------------
  // extract_critical_rules

  /** The passport rule: the whole leftmost match, or the fallback advice;
      either way it carries the passport label. */
  function PassportRule(t: string): (r: string)
    ensures |PassportLabel| < |r| && r[..|PassportLabel|] == PassportLabel
  {
    match Passport.Search(t)
    case Some((i, e)) =>
      Passport.ValidBounds(t, i, e);
      PassportLabel + t[i..e]
    case None => PassportFallback
  }

  /** The photo rule, when the photo-size pattern matches; it carries the
      photo label. */
  function PhotoRule(t: string): (r: Option<string>)
    ensures r.None? <==> forall i: nat, e: nat :: !Photo.Valid(t, i, e)
    ensures r.Some? ==> |PhotoLabel| < |r.value| && r.value[..|PhotoLabel|] == PhotoLabel
  {
    match Photo.Search(t)
    case Some((i, e)) =>
      Photo.ValidBounds(t, i, e);
      Some(PhotoLabel + t[i..e])
    case None => None
  }

  /** A passport match anywhere makes the rule quote the whole leftmost
      match, ending where the engine's lazy gaps and ordered alternatives
      end it. */
  lemma PassportRuleQuotes(t: string, i0: nat, e0: nat)
    requires Passport.Valid(t, i0, e0)
    ensures exists i: nat, e: nat :: Passport.Valid(t, i, e) && Passport.Chosen(t, i, e) && InBounds(t, i, e) && i <= i0
              && (forall i': nat, e': nat :: Passport.Valid(t, i', e') ==> i <= i')
              && PassportRule(t) == PassportLabel + t[i..e]
  {
    var r := Passport.Search(t);
    var i := r.value.0;
    var e := r.value.1;
    PassportRuleAt(t, i, e);
    assert Passport.Valid(t, i, e) && Passport.Chosen(t, i, e) && i <= i0;
  }

  /** Where the search reports `t[i..e]`, the rule quotes it. */
  lemma PassportRuleAt(t: string, i: nat, e: nat)
    requires Passport.Search(t) == Some((i, e))
    ensures InBounds(t, i, e) && PassportRule(t) == PassportLabel + t[i..e]
  {
    Passport.ValidBounds(t, i, e);
  }

  /** A photo match anywhere makes the rule quote the whole leftmost match,
      ending where the engine's lazy gap and ordered alternatives end it. */
  lemma PhotoRuleQuotes(t: string, i0: nat, e0: nat)
    requires Photo.Valid(t, i0, e0)
    ensures exists i: nat, e: nat :: Photo.Valid(t, i, e) && Photo.Chosen(t, i, e) && InBounds(t, i, e) && i <= i0
              && (forall i': nat, e': nat :: Photo.Valid(t, i', e') ==> i <= i')
              && PhotoRule(t) == Some(PhotoLabel + t[i..e])
  {
    var r := Photo.Search(t);
    var i := r.value.0;
    var e := r.value.1;
    PhotoRuleAt(t, i, e);
    assert Photo.Valid(t, i, e) && Photo.Chosen(t, i, e) && i <= i0;
  }

  /** Where the search reports `t[i..e]`, the rule quotes it. */
  lemma PhotoRuleAt(t: string, i: nat, e: nat)
    requires Photo.Search(t) == Some((i, e))
    ensures InBounds(t, i, e) && PhotoRule(t) == Some(PhotoLabel + t[i..e])
  {
    Photo.ValidBounds(t, i, e);
  }

  /** The lower-case text mentions fingerprints or biometrics; a
      "biyometrik" anywhere is such a mention. */
  function MentionsBiometrics(t: string): (b: bool)
    ensures Occurs(LowerStr(t), "biyometrik") ==> b
  {
    var l := LowerStr(t);
    assert Occurs(l, "biyometrik") ==> Occurs(l, "biyometri") by {
      if Occurs(l, "biyometrik") {
        var i: nat :| i <= |l| && OccursAt(l, "biyometrik", i);
        assert l[i..i + 9] == l[i..i + 10][..9] == "biyometri";
        assert OccursAt(l, "biyometri", i);
      }
    }
    Occurs(l, "parmak izi") || Occurs(l, "biyometri")
  }

  /** The list topped up with "no further rule" until it has three entries. */
  function Pad(rules: seq<string>): (r: seq<string>)
    ensures |r| == if |rules| < 3 then 3 else |rules|
    ensures r[..|rules|] == rules
    ensures forall k :: |rules| <= k < |r| ==> r[k] == NoRule
    decreases 3 - |rules|
  {
    if |rules| < 3 then Pad(rules + [NoRule]) else rules
  }

  /** The passport rule, then the photo rule if there is one, then the
      fingerprint rule if `biometric`, padded and cut to three. */
  function Arrange(passport: string, photo: Option<string>, biometric: bool): (r: seq<string>)
    ensures |r| == 3 && r[0] == passport
    ensures photo.Some? ==> r[1] == photo.value
    ensures photo.None? ==> r[1] == if biometric then FingerprintRule else NoRule
    ensures r[2] == if photo.Some? && biometric then FingerprintRule else NoRule
  {
    var found := if photo.Some? then [photo.value] else [];
    var hint := if biometric then [FingerprintRule] else [];
    var rules := [passport] + found + hint;
    var padded := Pad(rules);
    assert forall k :: 0 <= k < |rules| ==> padded[k] == rules[k];
    padded[..3]
  }

  /** `extract_critical_rules`: three rules, in the order passport, photo,
      fingerprint; a missing photo or fingerprint rule leaves its place to the
      next one, and the free places at the end say that there is no further
      rule. */
  function ExtractCriticalRules(t: string): (r: seq<string>)
    ensures |r| == 3
    ensures r[0] == PassportRule(t)
    ensures PhotoRule(t).Some? ==> r[1] == PhotoRule(t).value
    ensures PhotoRule(t).None? ==> r[1] == if MentionsBiometrics(t) then FingerprintRule else NoRule
    ensures r[2] == if PhotoRule(t).Some? && MentionsBiometrics(t) then FingerprintRule else NoRule
  {
    Arrange(PassportRule(t), PhotoRule(t), MentionsBiometrics(t))
  }

  /** A passport match begins with the "p" of "pasaport" or the "t" of
      "travel document", in either case, and so never with "E". */
  lemma PassportMatchStart(t: string, i: nat, e: nat)
    requires Passport.Valid(t, i, e)
    ensures i < |t| && t[i] != 'E'
  {
    Passport.ValidKey(t, i, e);
    var j :| 0 <= j < |Passport.Keys| && CiLitAt(t, i, Passport.Keys[j]);
    var w := Passport.Keys[j];
    CiLitAtFirst(t, i, w);
    assert w[0] == 'p' || w[0] == 't';
  }

  /** The first rule is the fallback exactly when the passport pattern
      matches nowhere: a real match begins with "pasaport" or "travel
      document", never with the "En az" of the fallback. */
  lemma PassportFallbackIff(t: string)
    ensures ExtractCriticalRules(t)[0] == PassportFallback <==> forall i: nat, e: nat :: !Passport.Valid(t, i, e)
  {
    if Passport.Search(t).Some? {
      var (i, e) := Passport.Search(t).value;
      Passport.ValidBounds(t, i, e);
      PassportMatchStart(t, i, e);
      assert PassportRule(t) == PassportLabel + t[i..e];
      assert PassportRule(t)[|PassportLabel|] == t[i];
      FallbackAdvice();
    }
  }

  /** The fallback advice begins right after the label, with "E". */
  lemma FallbackAdvice()
    ensures |PassportLabel| < |PassportFallback| && PassportFallback[|PassportLabel|] == 'E'
  {
  }

  /** Rules that cannot be mistaken for the fingerprint rule leave it in
      the list exactly when it was asked for. */
  lemma ArrangeFingerprint(passport: string, photo: Option<string>, biometric: bool)
    requires |passport| > 0 && passport[0] != 'F'
    requires photo.Some? ==> |photo.value| > 0 && photo.value[0] != 'F'
    ensures FingerprintRule in Arrange(passport, photo, biometric) <==> biometric
  {
    assert FingerprintRule[0] == 'F' && NoRule[0] == 'E';
  }

  /** The fingerprint rule is in the list exactly when the text mentions
      fingerprints or biometrics. */
  lemma FingerprintIff(t: string)
    ensures FingerprintRule in ExtractCriticalRules(t) <==> MentionsBiometrics(t)
  {
    var passport := PassportRule(t);
    assert passport[0] == passport[..|PassportLabel|][0] == PassportLabel[0] == '\U{26A0}';
    var photo := PhotoRule(t);
    if photo.Some? {
      assert photo.value[0] == photo.value[..|PhotoLabel|][0] == PhotoLabel[0] == '\U{1F4F8}';
    }
    ArrangeFingerprint(passport, photo, MentionsBiometrics(t));
  }

  /** A photo keyword whose lower-case form is "biyometrik" brings the
      fingerprint rule with it, since "biyometri" then occurs in the
      lower-case text. (Spelled "BİYOMETRİK" or "bıyometrik" it still starts
      a photo match, ignoring case, but `str.lower()` does not turn it into
      "biyometrik".) */
  lemma BiometricPhotoBringsFingerprint(t: string, i: nat)
    requires OccursAt(LowerStr(t), "biyometrik", i)
    ensures FingerprintRule in ExtractCriticalRules(t)
  {
    assert Occurs(LowerStr(t), "biyometrik");
    FingerprintIff(t);
  }

  /** The quoted passport match is one line of the document, except that
      the white space between the number and its unit ("6 \n ay") may break
      the line. */
  lemma PassportQuoteLines(t: string)
    requires Passport.Search(t).Some?
    ensures var q := PassportRule(t)[|PassportLabel|..];
            exists d: nat, s: nat :: 0 < d <= s < |q| && OneLine(q[..d]) && AllIn(q, d, s, IsSpace) && OneLine(q[s..])
  {
    var (i, e) := Passport.Search(t).value;
    Passport.ValidBounds(t, i, e);
    assert PassportRule(t)[|PassportLabel|..] == t[i..e];
    Passport.ValidLines(t, i, e);
    var d: nat, s: nat :| i < d <= s < e && Gap(t, i, d) && AllIn(t, d, s, IsSpace) && Gap(t, s, e);
    QuoteLines(t, i, e, d, s);
  }

  /** The slice `t[i..e]` keeps the line structure of the text around it. */
  lemma QuoteLines(t: string, i: nat, e: nat, d: nat, s: nat)
    requires i < d <= s < e <= |t| && Gap(t, i, d) && AllIn(t, d, s, IsSpace) && Gap(t, s, e)
    ensures var q := t[i..e];
            exists d: nat, s: nat :: 0 < d <= s < |q| && OneLine(q[..d]) && AllIn(q, d, s, IsSpace) && OneLine(q[s..])
  {
    var q := t[i..e];
    assert q[..d - i] == t[i..d] && q[s - i..] == t[s..e];
    forall k | d - i <= k < s - i
      ensures IsSpace(q[k])
    {
      assert q[k] == t[i + k];
    }
    SliceOneLine(t, i, d);
    SliceOneLine(t, s, e);
    assert AllIn(q, d - i, s - i, IsSpace);
  }

  /** A stretch without a newline is a single line. */
  lemma SliceOneLine(t: string, i: nat, j: nat)
    requires Gap(t, i, j)
    ensures OneLine(t[i..j])
  {
    forall k | 0 <= k < j - i
      ensures t[i..j][k] != '\n'
    {
      assert t[i..j][k] == t[i + k];
    }
  }

  /** An empty document gets the fallback advice and two padding entries. */
  lemma EmptyTextRules()
    ensures var r := ExtractCriticalRules("");
            |r| == 3 && r[0] == PassportFallback && r[1] == NoRule && r[2] == NoRule
  {
    EmptyMentionsNothing("pasaport");
    EmptyMentionsNothing("travel document");
    EmptyMentionsNothing("biyometrik");
    EmptyMentionsNothing("fotoğraf");
    EmptyMentionsNothing("parmak izi");
    EmptyMentionsNothing("biyometri");
    NoPassportKeyword("");
    Photo.NoKeyNoMatch("");
    assert PhotoRule("").None? && !MentionsBiometrics("");
  }

  /** No word occurs in the empty text, lower-cased or folded. */
  lemma EmptyMentionsNothing(w: string)
    requires |w| > 0
    ensures !Occurs(LowerStr(""), w) && !Occurs(FoldStr(""), w)
  {
  }

  /** Without "pasaport" or "travel document" in the text, ignoring case,
      the first rule is the fallback. */
  lemma NoPassportKeyword(t: string)
    requires !Occurs(FoldStr(t), "pasaport") && !Occurs(FoldStr(t), "travel document")
    ensures ExtractCriticalRules(t)[0] == PassportFallback
  {
    Passport.NoKeyNoMatch(t);
  }

  // ---------------------------------------------------------------------
  // extract_fees

  /** The groups of a match lie inside the text, in order. */
  predicate Ordered(t: string, h: Hit)
  {
    h.amountStart <= h.amountEnd <= h.currencyStart <= h.end <= |t|
  }

  /** `f"{m[1]} {m[2]}"` and `f"{match.group(2)} {match.group(3)}"`: the
      amount and the currency of one match, with a space between; the two
      groups can be read back off the text. */
  function AmountText(t: string, h: Hit): (x: string)
    requires Ordered(t, h)
    ensures var n := h.amountEnd - h.amountStart;
            && |x| == n + 1 + (h.end - h.currencyStart)
            && x[..n] == t[h.amountStart..h.amountEnd] && x[n] == ' ' && x[n + 1..] == t[h.currencyStart..h.end]
  {
    t[h.amountStart..h.amountEnd] + " " + t[h.currencyStart..h.end]
  }

  /** Every character of `s` is a decimal digit. */
  predicate Digits(s: string)
  {
    forall k :: 0 <= k < |s| ==> IsDigit(s[k])
  }

  /** The text of a fee: two or three digits, a space and one of the
      currencies, in whatever case the document uses. */
  ghost predicate FeeShape(x: string)
  {
    exists n: nat, j :: 2 <= n <= 3 && n < |x| && Digits(x[..n]) && x[n] == ' '
      && 0 <= j < |Fee.Currencies| && CiEquals(x[n + 1..], Fee.Currencies[j])
  }

  /** The amount text of a fee match has the shape of a fee, and so is never
      "Belirtilmemiş". */
  lemma FeeTextShape(t: string, h: Hit)
    requires Fee.Valid(t, h)
    ensures Ordered(t, h) && FeeShape(AmountText(t, h)) && |AmountText(t, h)| <= 7
  {
    Fee.ValidTail(t, h);
    var j :| 0 <= j < |Fee.Currencies| && CiLitAt(t, h.currencyStart, Fee.Currencies[j])
             && h.end == h.currencyStart + |Fee.Currencies[j]|;
    FeeShapeOf(t, h, j);
  }

  /** Two or three digits, then currency `j`, make the text of a fee. */
  lemma FeeShapeOf(t: string, h: Hit, j: nat)
    requires Ordered(t, h) && 2 <= h.amountEnd - h.amountStart <= 3
    requires forall k :: h.amountStart <= k < h.amountEnd ==> IsDigit(t[k])
    requires j < |Fee.Currencies| && CiLitAt(t, h.currencyStart, Fee.Currencies[j])
    requires h.end == h.currencyStart + |Fee.Currencies[j]|
    ensures FeeShape(AmountText(t, h)) && |AmountText(t, h)| <= 7
  {
    Fee.CurrencyLengths();
    var x, n := AmountText(t, h), h.amountEnd - h.amountStart;
    assert forall k :: 0 <= k < n ==> x[..n][k] == t[h.amountStart + k];
    assert Digits(x[..n]);
    assert CiEquals(x[n + 1..], Fee.Currencies[j]);
  }

  /** `list(set(xs))`: every element of `xs` once. Python does not fix the
      order of a set; this keeps first occurrences. */
  method Distinct(xs: seq<string>) returns (ys: seq<string>)
    ensures forall a, b :: 0 <= a < b < |ys| ==> ys[a] != ys[b]
    ensures forall x :: x in ys <==> x in xs
  {
    ys := [];
    var i := 0;
    while i < |xs|
      invariant 0 <= i <= |xs|
      invariant forall a, b :: 0 <= a < b < |ys| ==> ys[a] != ys[b]
      invariant forall x :: x in ys <==> x in xs[..i]
    {
      if xs[i] !in ys {
        ys := ys + [xs[i]];
      }
      assert xs[..i + 1] == xs[..i] + [xs[i]];
      i := i + 1;
    }
    assert xs[..i] == xs;
  }

  /** The fee text of each match, in order. */
  function FeeTexts(t: string, ms: seq<Hit>): (r: seq<string>)
    requires forall k :: 0 <= k < |ms| ==> Ordered(t, ms[k])
    ensures |r| == |ms|
  {
    seq(|ms|, k requires 0 <= k < |ms| => AmountText(t, ms[k]))
  }

  /** The matches of the fee pattern have their groups in order, and their
      amount texts have the shape of a fee. */
  lemma FeeMatches(t: string)
    ensures forall k :: 0 <= k < |Fee.FindAll(t, 0)| ==> Ordered(t, Fee.FindAll(t, 0)[k])
    ensures forall x :: x in FeeTexts(t, Fee.FindAll(t, 0)) ==> FeeShape(x) && |x| <= 7
  {
    var ms := Fee.FindAll(t, 0);
    Fee.FindAllValid(t, 0);
    forall k | 0 <= k < |ms|
      ensures Ordered(t, ms[k]) && FeeShape(AmountText(t, ms[k])) && |AmountText(t, ms[k])| <= 7
    {
      FeeTextShape(t, ms[k]);
    }
    var texts := FeeTexts(t, ms);
    forall x | x in texts
      ensures FeeShape(x) && |x| <= 7
    {
      var k :| 0 <= k < |texts| && texts[k] == x;
      assert x == AmountText(t, ms[k]);
    }
  }

  /** There are no fee matches exactly when the pattern matches nowhere. */
  lemma FeesNone(t: string)
    ensures Fee.FindAll(t, 0) == [] <==> forall h: Hit :: !Fee.Valid(t, h)
  {
  }

  /** `extract_fees`: the distinct fee texts of all matches, or
      "Belirtilmemiş" when nothing matches. */
  method ExtractFees(t: string) returns (fees: seq<string>)
    ensures |fees| >= 1
    ensures fees == [NotSpecified] <==> forall h: Hit :: !Fee.Valid(t, h)
    ensures forall a, b :: 0 <= a < b < |fees| ==> fees[a] != fees[b]
    ensures fees != [NotSpecified] ==>
              forall k :: 0 <= k < |Fee.FindAll(t, 0)| ==> Ordered(t, Fee.FindAll(t, 0)[k])
    ensures fees != [NotSpecified] ==> forall x :: x in fees <==> x in FeeTexts(t, Fee.FindAll(t, 0))
    ensures fees != [NotSpecified] ==> forall x :: x in fees ==> FeeShape(x)
  {
    var ms := Fee.FindAll(t, 0);
    FeeMatches(t);
    FeesNone(t);
    var texts := FeeTexts(t, ms);
    fees := Distinct(texts);
    assert |texts| > 0 ==> texts[0] in fees;
    if |fees| == 0 {
      fees := [NotSpecified];
    } else {
      assert fees[0] in texts;
      assert |fees[0]| <= 7 < |NotSpecified|;
    }
  }

  /** Without "vize", "harç" or "ücret" in the text, ignoring case, there is no fee. */
  lemma NoFeeKeyword(t: string)
    requires !Occurs(FoldStr(t), "vize") && !Occurs(FoldStr(t), "harç") && !Occurs(FoldStr(t), "ücret")
    ensures forall h: Hit :: !Fee.Valid(t, h)
  {
    Fee.NoKeyNoMatch(t);
  }

  // ---------------------------------------------------------------------
  // extract_insurance_limit

  /** `extract_insurance_limit`: amount and currency of the leftmost match,
      or the standard coverage when nothing matches. The currency reads "€"
      or "EUR", never "Euro", whatever the document says. */
  function ExtractInsuranceLimit(t: string): (r: string)
    ensures r == DefaultCoverage <==> forall h: Hit :: !Insurance.Valid(t, h)
    ensures r != DefaultCoverage ==>
              && Insurance.Search(t).Some?
              && var h := Insurance.Search(t).value;
              && Insurance.Chosen(t, h) && Ordered(t, h) && r == AmountText(t, h)
              && (CiEquals(t[h.currencyStart..h.end], "€") || CiEquals(t[h.currencyStart..h.end], "EUR"))
  {
    match Insurance.Search(t)
    case Some(h) =>
      InsuranceText(t, h);
      DefaultCoverageLength();
      AmountText(t, h)
    case None => DefaultCoverage
  }

  /** The standard coverage is longer than any amount text of an insurance match. */
  lemma DefaultCoverageLength()
    ensures |DefaultCoverage| == 19
  {
  }

  /** The leftmost insurance match: its groups are in order, its amount text
      is at most eleven characters long, and its currency reads "€" or "EUR". */
  lemma InsuranceText(t: string, h: Hit)
    requires Insurance.Search(t) == Some(h)
    ensures Ordered(t, h) && |AmountText(t, h)| <= 11
    ensures CiEquals(t[h.currencyStart..h.end], "€") || CiEquals(t[h.currencyStart..h.end], "EUR")
  {
    Insurance.ValidBounds(t, h);
    Insurance.EuroShadowed(t);
    InsuranceCurrency(t, h);
  }

  /** A currency group of one or three characters is "€" or "EUR". */
  lemma InsuranceCurrency(t: string, h: Hit)
    requires Insurance.Valid(t, h) && h.end - h.currencyStart in {1, 3}
    ensures CiEquals(t[h.currencyStart..h.end], "€") || CiEquals(t[h.currencyStart..h.end], "EUR")
  {
    var k: nat :| AltAt(t, h.start, Insurance.Keys, k) && Gap(t, k, h.amountStart) && Insurance.TailOk(t, h);
    assert AltAt(t, h.currencyStart, Insurance.Currencies, h.end);
    var j :| 0 <= j < |Insurance.Currencies| && CiLitAt(t, h.currencyStart, Insurance.Currencies[j])
             && h.end == h.currencyStart + |Insurance.Currencies[j]|;
    assert |Insurance.Currencies[2]| == 4;
  }

  /** Without "sigorta" or "teminat" in the text, ignoring case, the
      standard coverage is reported. */
  lemma NoInsuranceKeyword(t: string)
    requires !Occurs(FoldStr(t), "sigorta") && !Occurs(FoldStr(t), "teminat")
    ensures ExtractInsuranceLimit(t) == DefaultCoverage
  {
    Insurance.NoKeyNoMatch(t);
  }

  // ---------------------------------------------------------------------
  // get_upsell_opportunities

  const InsuranceWords: seq<string> := ["sigorta", "teminat"]
  const TravelWords: seq<string> := ["uçak", "otel", "konaklama", "rezervasyon", "bilet"]
  const VipWords: seq<string> := ["vip", "eksper"]

  /** One of `words` occurs in the lower-case text. */
  predicate MentionsAny(t: string, words: seq<string>)
  {
    exists j | 0 <= j < |words| :: Occurs(LowerStr(t), words[j])
  }

  /** `get_upsell_opportunities`: the three flags, each set when the text
      mentions one of its words. */
  function UpsellOpportunities(t: string): (r: map<string, bool>)
    ensures r.Keys == {"insurance", "flight_hotel", "vip"}
    ensures r["insurance"] <==> Occurs(LowerStr(t), "sigorta") || Occurs(LowerStr(t), "teminat")
    ensures r["flight_hotel"] <==> exists j | 0 <= j < |TravelWords| :: Occurs(LowerStr(t), TravelWords[j])
    ensures r["vip"] <==> Occurs(LowerStr(t), "vip") || Occurs(LowerStr(t), "eksper")
  {
    MentionsPair(t, InsuranceWords);
    MentionsPair(t, VipWords);
    map["insurance" := MentionsAny(t, InsuranceWords),
        "flight_hotel" := MentionsAny(t, TravelWords),
        "vip" := MentionsAny(t, VipWords)]
  }

  /** A text mentions one of two words when it mentions the first or the second. */
  lemma MentionsPair(t: string, words: seq<string>)
    requires |words| == 2
    ensures MentionsAny(t, words) <==> Occurs(LowerStr(t), words[0]) || Occurs(LowerStr(t), words[1])
  {
  }

  /** Lower-casing a text is lower-casing its two halves. */
  lemma LowerStrAppend(a: string, b: string)
    ensures LowerStr(a + b) == LowerStr(a) + LowerStr(b)
  {
  }

  /** A word found in either part of a text is found in the whole. */
  lemma MentionsAnyAppend(a: string, b: string, words: seq<string>)
    requires MentionsAny(a, words) || MentionsAny(b, words)
    ensures MentionsAny(a + b, words)
  {
    var whole := LowerStr(a + b);
    LowerStrAppend(a, b);
    assert whole[0..|a|] == LowerStr(a) && whole[|a|..|whole|] == LowerStr(b);
    if MentionsAny(a, words) {
      var j :| 0 <= j < |words| && Occurs(LowerStr(a), words[j]);
      OccursInSlice(whole, 0, |a|, words[j]);
    } else {
      var j :| 0 <= j < |words| && Occurs(LowerStr(b), words[j]);
      OccursInSlice(whole, |a|, |whole|, words[j]);
    }
  }

  /** More text never clears a flag: a flag raised by either part of a text
      stays raised for the whole. */
  lemma UpsellMonotone(a: string, b: string, key: string)
    requires key in {"insurance", "flight_hotel", "vip"}
    requires UpsellOpportunities(a)[key] || UpsellOpportunities(b)[key]
    ensures UpsellOpportunities(a + b)[key]
  {
    var words := if key == "insurance" then InsuranceWords else if key == "flight_hotel" then TravelWords else VipWords;
    MentionsAnyAppend(a, b, words);
  }

  /** An insurance figure found in the text comes with the insurance upsell
      flag, and without the flag the standard coverage is reported, as long
      as the text holds none of the letters that ignore-case matching and
      `str.lower()` treat differently ("ı", "İ", "ſ", the Kelvin sign). */
  lemma InsuranceFigureRaisesFlag(t: string)
    requires forall k :: 0 <= k < |t| ==> Fold(t[k]) == Lower(t[k])
    ensures ExtractInsuranceLimit(t) != DefaultCoverage ==> UpsellOpportunities(t)["insurance"]
  {
    assert FoldStr(t) == LowerStr(t);
    if !UpsellOpportunities(t)["insurance"] {
      Insurance.NoKeyNoMatch(t);
    }
  }

  /** The text of `CapitalInsurance`: "SİGORTA 30 €", with the dotted capital İ. */
  const CapitalInsuranceText: string := "S\U{0130}GORTA 30 \U{20AC}"

  /** With the keyword in capitals, "SİGORTA 30 €", the insurance pattern
      finds the figure, ignoring case, but `str.lower()` gives "si̇gorta",
      which does not contain "sigorta": the figure is reported and the
      insurance flag stays down. */
  lemma CapitalInsurance()
    ensures ExtractInsuranceLimit(CapitalInsuranceText) != DefaultCoverage
    ensures !UpsellOpportunities(CapitalInsuranceText)["insurance"]
  {
    CapitalInsuranceMatch();
    CapitalInsuranceLower();
  }

  /** "SİGORTA 30 €" is a match of the insurance pattern. */
  lemma CapitalInsuranceMatch()
    ensures Insurance.Valid(CapitalInsuranceText, Hit(0, 8, 10, 11, 12))
  {
    var t := CapitalInsuranceText;
    assert |t| == 12;
    assert FoldStr(t[0..7]) == FoldStr("sigorta");
    assert CiLitAt(t, 0, Insurance.Keys[0]) && 7 == 0 + |Insurance.Keys[0]|;
    assert Insurance.AmountOk(t, 8, 10) by {
      assert AllIn(t, 8, 10, IsDigit) && AllIn(t, 10, 10, Insurance.IsSeparator) && AllIn(t, 10, 10, IsDigit);
    }
    assert FoldStr(t[11..12]) == FoldStr("€");
    assert CiLitAt(t, 11, Insurance.Currencies[0]) && 12 == 11 + |Insurance.Currencies[0]|;
    assert AltAt(t, 0, Insurance.Keys, 7) && Gap(t, 7, 8);
    assert AltAt(t, 11, Insurance.Currencies, 12) && AllIn(t, 10, 11, IsSpace);
    assert Insurance.TailOk(t, Hit(0, 8, 10, 11, 12));
  }

  /** The model's `str.lower()` keeps "İ" in "SİGORTA 30 €" as it is, where
      Python writes an "i" followed by a combining dot; either way the
      lower-cased text contains neither "sigorta" nor "teminat". */
  lemma CapitalInsuranceLower()
    ensures !Occurs(LowerStr(CapitalInsuranceText), "sigorta") && !Occurs(LowerStr(CapitalInsuranceText), "teminat")
  {
    var l := LowerStr(CapitalInsuranceText);
    assert forall k :: 0 <= k < |l| ==> l[k] != 'i';
    AbsentChar(l, "sigorta", 1);
    AbsentChar(l, "teminat", 3);
  }

  /** The text of `PhotoSize`: "Biyometrik fotoğraf 3.5 x 4.5". */
  const PhotoSizeText: string := "Biyometrik fotoğraf 3.5 x 4.5"

  /** On "Biyometrik fotoğraf 3.5 x 4.5" the pattern also fits the shorter
      "Biyometrik fotoğraf 3.5 x 4", whose size "5 x 4" starts later, but
      `.*?` stops before the first size, "3.5 x 4.5", so the rule quotes the
      whole text. */
  lemma PhotoSize()
    ensures Photo.Valid(PhotoSizeText, 0, 27) && !Photo.Chosen(PhotoSizeText, 0, 27)
    ensures PhotoRule(PhotoSizeText) == Some(PhotoLabel + PhotoSizeText)
  {
    var t := PhotoSizeText;
    PhotoSizeKey();
    PhotoSizeDimensions();
    PhotoSizeGap();
    assert Photo.Valid(t, 0, 27);
    assert Photo.Chosen(t, 0, 29);
    if Photo.Chosen(t, 0, 27) {
      Photo.ChosenUnique(t, 0, 27, 29);
    }
    Photo.SearchIff(t, 0, 29);
    WholeSlice(t);
  }

  /** "Biyometrik" opens `PhotoSizeText`. */
  lemma PhotoSizeKey()
    ensures |PhotoSizeText| == 29 && AltAt(PhotoSizeText, 0, Photo.Keys, 10)
  {
    var t := PhotoSizeText;
    assert t == "Biyometrik" + " fotoğraf " + "3.5 x 4.5";
    assert t[0..10] == "Biyometrik";
    assert FoldStr("Biyometrik") == FoldStr("biyometrik");
    assert CiLitAt(t, 0, Photo.Keys[0]) && 10 == 0 + |Photo.Keys[0]|;
  }

  /** `PhotoSizeText` holds the sizes "3.5 x 4.5" and "5 x 4". */
  lemma PhotoSizeDimensions()
    ensures Photo.DimensionOk(PhotoSizeText, 20, 29) && Photo.DimensionOk(PhotoSizeText, 22, 27)
  {
    var t := PhotoSizeText;
    assert t == "Biyometrik fotoğraf " + "3.5 x 4.5";
    assert t[20] == '3' && t[21] == '.' && t[22] == '5' && t[23] == ' ' && t[24] == 'x';
    assert t[25] == ' ' && t[26] == '4' && t[27] == '.' && t[28] == '5';
    assert FoldStr(t[24..25]) == FoldStr("x");
    assert Photo.TimesOk(t, 23, 26) by {
      assert AllIn(t, 23, 24, IsSpace) && CiLitAt(t, 24, "x") && AllIn(t, 25, 26, IsSpace);
    }
    assert Photo.IntegerDimensionOk(t, 22, 27);
    assert Photo.DecimalAt(t, 20) && Photo.DecimalAt(t, 26);
    assert Photo.DecimalDimensionOk(t, 20, 29);
  }

  /** No size starts in " fotoğraf " of `PhotoSizeText`: it holds no digit. */
  lemma PhotoSizeGap()
    ensures Gap(PhotoSizeText, 10, 20) && Gap(PhotoSizeText, 10, 22)
    ensures Photo.NoDimensionBefore(PhotoSizeText, 10, 20)
  {
    var t := PhotoSizeText;
    var g := " fotoğraf ";
    assert t == "Biyometrik" + g + "3.5 x 4.5";
    assert forall j :: 0 <= j < |g| ==> !IsDigit(g[j]);
    assert forall q :: 10 <= q < 20 ==> t[q] == g[q - 10];
  }

  /** The text of `FeeAmount`: "Vize 120 €". */
  const FeeAmountText: string := "Vize 120 \U{20AC}"

  /** On "Vize 120 €" the pattern also fits with the amount "20", but `.*?`
      stops before the first amount, so the fee read is "120 €". */
  lemma FeeAmount()
    ensures Fee.Valid(FeeAmountText, Hit(0, 6, 8, 9, 10)) && !Fee.Chosen(FeeAmountText, Hit(0, 6, 8, 9, 10))
    ensures Fee.FindAll(FeeAmountText, 0) == [Hit(0, 5, 8, 9, 10)]
    ensures FeeTexts(FeeAmountText, Fee.FindAll(FeeAmountText, 0)) == ["120 \U{20AC}"]
  {
    var t := FeeAmountText;
    var h, g := Hit(0, 5, 8, 9, 10), Hit(0, 6, 8, 9, 10);
    FeeAmountParts();
    assert Fee.Valid(t, g);
    assert Fee.Chosen(t, h);
    if Fee.Chosen(t, g) {
      Fee.ChosenUnique(t, h, g);
    }
    Fee.SearchIff(t, 0, h);
    FeeAmountEnd();
    assert Fee.FindAll(t, 0) == [h] + Fee.FindAll(t, 10) == [h];
    FeeAmountTexts(t, h);
  }

  /** The fee text of the match `h` of `FeeAmountText`. */
  lemma FeeAmountTexts(t: string, h: Hit)
    requires t == FeeAmountText && h == Hit(0, 5, 8, 9, 10)
    requires t[5..8] == "120" && t[9..10] == "\U{20AC}"
    ensures FeeTexts(t, [h]) == ["120 \U{20AC}"]
  {
    var x := AmountText(t, h);
    assert x == "120" + " " + "\U{20AC}";
    assert |x| == 5 && x[0] == '1' && x[1] == '2' && x[2] == '0' && x[3] == ' ' && x[4] == '\U{20AC}';
    assert x == "120 \U{20AC}";
    var r := FeeTexts(t, [h]);
    assert |r| == 1 && r[0] == x;
    assert r == [x];
  }

  /** The keyword, the gaps, the two tails and the slices of `FeeAmountText`. */
  lemma FeeAmountParts()
    ensures AltAt(FeeAmountText, 0, Fee.Keys, 4) && Gap(FeeAmountText, 4, 5) && Gap(FeeAmountText, 4, 6)
    ensures Fee.TailOk(FeeAmountText, Hit(0, 5, 8, 9, 10)) && Fee.TailOk(FeeAmountText, Hit(0, 6, 8, 9, 10))
    ensures Fee.NoTailBefore(FeeAmountText, 4, 5)
    ensures FeeAmountText[5..8] == "120" && FeeAmountText[9..10] == "\U{20AC}"
  {
    var t := FeeAmountText;
    assert |t| == 10;
    assert t[0..4] == "Vize" && t[4] == ' ' && t[5..8] == "120" && t[8] == ' ' && t[9..10] == "\U{20AC}";
    assert FoldStr("Vize") == FoldStr("vize");
    assert CiLitAt(t, 0, Fee.Keys[0]) && 4 == 0 + |Fee.Keys[0]|;
    assert CiLitAt(t, 9, Fee.Currencies[0]) && 10 == 9 + |Fee.Currencies[0]|;
    assert AltAt(t, 9, Fee.Currencies, 10);
    assert !IsDigit(t[4]);
  }

  /** No match starts at the end of `FeeAmountText`. */
  lemma FeeAmountEnd()
    ensures Fee.FindAll(FeeAmountText, 10) == []
  {
    var t := FeeAmountText;
    assert |t| == 10;
    forall g: Hit | Fee.Valid(t, g)
      ensures g.start < 10
    {
      Fee.ValidBounds(t, g);
    }
  }

  /** The text of `InsuranceAmount`: "sigorta 30.000 €". */
  const InsuranceAmountText: string := "sigorta 30.000 \U{20AC}"

  /** On "sigorta 30.000 €" the pattern also fits with the amount "000",
      but `.*?` stops before the first amount, so the limit read is
      "30.000 €". */
  lemma InsuranceAmount()
    ensures Insurance.Valid(InsuranceAmountText, Hit(0, 11, 14, 15, 16))
    ensures !Insurance.Chosen(InsuranceAmountText, Hit(0, 11, 14, 15, 16))
    ensures ExtractInsuranceLimit(InsuranceAmountText) == "30.000 \U{20AC}"
  {
    var t := InsuranceAmountText;
    var h, g := Hit(0, 8, 14, 15, 16), Hit(0, 11, 14, 15, 16);
    InsuranceAmountParts();
    assert Insurance.Valid(t, g);
    assert Insurance.Chosen(t, h);
    if Insurance.Chosen(t, g) {
      Insurance.ChosenUnique(t, h, g);
    }
    Insurance.SearchIff(t, h);
    InsuranceAmountLimit(t, h);
    assert ExtractInsuranceLimit(t) == AmountText(t, h);
  }

  /** The limit text of a match whose amount is "30.000" and whose currency is "€". */
  lemma InsuranceAmountLimit(t: string, h: Hit)
    requires Ordered(t, h)
    requires t[h.amountStart..h.amountEnd] == "30.000" && t[h.currencyStart..h.end] == "\U{20AC}"
    ensures AmountText(t, h) == "30.000 \U{20AC}"
  {
    var x := AmountText(t, h);
    assert x == "30.000" + " " + "\U{20AC}";
    assert |x| == 8 && x[0] == '3' && x[1] == '0' && x[2] == '.' && x[3] == '0';
    assert x[4] == '0' && x[5] == '0' && x[6] == ' ' && x[7] == '\U{20AC}';
  }

  /** The keyword, the gaps, the two tails and the slices of `InsuranceAmountText`. */
  lemma InsuranceAmountParts()
    ensures AltAt(InsuranceAmountText, 0, Insurance.Keys, 7) && Gap(InsuranceAmountText, 7, 8) && Gap(InsuranceAmountText, 7, 11)
    ensures Insurance.TailOk(InsuranceAmountText, Hit(0, 8, 14, 15, 16)) && Insurance.TailOk(InsuranceAmountText, Hit(0, 11, 14, 15, 16))
    ensures Insurance.NoTailBefore(InsuranceAmountText, 7, 8) && Insurance.FirstCurrency(InsuranceAmountText, 15, 16)
    ensures InsuranceAmountText[8..14] == "30.000" && InsuranceAmountText[15..16] == "\U{20AC}"
  {
    var t := InsuranceAmountText;
    assert |t| == 16;
    assert t[0..7] == "sigorta" && t[7] == ' ' && t[8..14] == "30.000" && t[14] == ' ' && t[15..16] == "\U{20AC}";
    assert CiLitAt(t, 0, Insurance.Keys[0]) && 7 == 0 + |Insurance.Keys[0]|;
    assert CiLitAt(t, 15, Insurance.Currencies[0]) && 16 == 15 + |Insurance.Currencies[0]|;
    assert AltAt(t, 15, Insurance.Currencies, 16) && AllIn(t, 14, 15, IsSpace);
    assert AllIn(t, 8, 10, IsDigit) && AllIn(t, 10, 11, Insurance.IsSeparator) && AllIn(t, 11, 14, IsDigit);
    assert Insurance.AmountOk(t, 8, 14);
    assert AllIn(t, 14, 14, Insurance.IsSeparator) && AllIn(t, 14, 14, IsDigit);
    assert Insurance.AmountOk(t, 11, 14);
    assert !IsDigit(t[7]);
  }
}
