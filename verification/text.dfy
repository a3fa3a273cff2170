/** Characters and strings as the rule extractor sees them: the case mapping
    of `str.lower()`, the key by which `re.IGNORECASE` compares characters,
    the character classes `\d` and `\s`, and the declarative notions of
    "occurs in" and "matches here, ignoring case" that the pattern matchers
    are proved against. */
module Text {

  /** Lower-case form of one character: the ASCII letters and the upper-case
      Turkish letters whose lower-case form is a single character. Every
      other character is its own lower-case form. */
  function Lower(c: char): char
  {
    if 'A' <= c <= 'Z' then (c as int + 32) as char
    else if c == 'Ç' then 'ç'
    else if c == 'Ğ' then 'ğ'
    else if c == 'Ö' then 'ö'
    else if c == 'Ş' then 'ş'
    else if c == 'Ü' then 'ü'
    else c
  }

  /** `s.lower()`, character by character. */
  function LowerStr(s: string): string
  {
    seq(|s|, k requires 0 <= k < |s| => Lower(s[k]))
  }

  /** The key by which `re.IGNORECASE` compares characters: the lower-case
      form, except that Python's engine also takes the dotless "ı", the
      dotted capital "İ" (whose one-character lower-case form there is "i"),
      the long "ſ" and the Kelvin sign to be "i", "i", "s" and "k". */
  function Fold(c: char): char
  {
    if c == 'ı' || c == 'İ' then 'i'
    else if c == 'ſ' then 's'
    else if c == '\U{212A}' then 'k'
    else Lower(c)
  }

  /** `s` with every character replaced by its ignore-case key. */
  function FoldStr(s: string): string
  {
    seq(|s|, k requires 0 <= k < |s| => Fold(s[k]))
  }

  /** Digits and white space are their own lower-case form and their own
      ignore-case key. */
  lemma FoldClass(c: char)
    ensures IsDigit(c) || IsSpace(c) ==> Fold(c) == c && Lower(c) == c
  {
  }

  /** `\d`: a decimal digit. */
  predicate IsDigit(c: char)
  {
    '0' <= c <= '9'
  }

  /** `\s` and `str.isspace()`: the characters Python treats as white space. */
  predicate IsSpace(c: char)
  {
    var n := c as int;
    || 0x09 <= n <= 0x0D
    || 0x1C <= n <= 0x20
    || n == 0x85 || n == 0xA0 || n == 0x1680
    || 0x2000 <= n <= 0x200A
    || n == 0x2028 || n == 0x2029 || n == 0x202F || n == 0x205F || n == 0x3000
  }

  /** Every character of `t[i..j]` belongs to the class `cls`. */
  predicate AllIn(t: string, i: nat, j: nat, cls: char -> bool)
  {
    i <= j <= |t| && forall k :: i <= k < j ==> cls(t[k])
  }

  /** `t[i..j]` is a stretch that `.` can cover: `.` matches anything but a
      newline, since no DOTALL flag is given. */
  predicate Gap(t: string, i: nat, j: nat)
  {
    i <= j <= |t| && forall k :: i <= k < j ==> t[k] != '\n'
  }

  /** `s` holds no newline. */
  predicate OneLine(s: string)
  {
    forall k :: 0 <= k < |s| ==> s[k] != '\n'
  }

  /** `w` sits in `s` starting at position `i`. */
  predicate OccursAt(s: string, w: string, i: nat)
  {
    i + |w| <= |s| && s[i..i + |w|] == w
  }

  /** Python's `w in s`: `w` is a contiguous piece of `s`. */
  predicate Occurs(s: string, w: string)
  {
    exists i: nat | i <= |s| :: OccursAt(s, w, i)
  }

  /** The literal `w` matches `t` at position `i` under `re.IGNORECASE`. */
  predicate CiLitAt(t: string, i: nat, w: string)
  {
    i + |w| <= |t| && FoldStr(t[i..i + |w|]) == FoldStr(w)
  }

  /** `s` equals `w` ignoring case. */
  predicate CiEquals(s: string, w: string)
  {
    FoldStr(s) == FoldStr(w)
  }

  /** One of the alternatives `alts` matches at `i` (ignoring case) and ends at `e`. */
  ghost predicate AltAt(t: string, i: nat, alts: seq<string>, e: nat)
  {
    exists j :: 0 <= j < |alts| && CiLitAt(t, i, alts[j]) && e == i + |alts[j]|
  }

  /** Lower-casing commutes with taking a slice. */
  lemma LowerStrSlice(s: string, a: nat, b: nat)
    requires a <= b <= |s|
    ensures LowerStr(s)[a..b] == LowerStr(s[a..b])
  {
  }

  /** The slice from the first to the last position is the whole string. */
  lemma WholeSlice(s: string)
    ensures s[0..|s|] == s
  {
  }

  /** Folding commutes with taking a slice. */
  lemma FoldStrSlice(s: string, a: nat, b: nat)
    requires a <= b <= |s|
    ensures FoldStr(s)[a..b] == FoldStr(s[a..b])
  {
  }

  /** An ignore-case match of `w` at `i` is an occurrence of the folded `w`
      in the folded text. */
  lemma CiLitAtOccurs(t: string, i: nat, w: string)
    requires CiLitAt(t, i, w)
    ensures Occurs(FoldStr(t), FoldStr(w))
  {
    FoldStrSlice(t, i, i + |w|);
    assert OccursAt(FoldStr(t), FoldStr(w), i);
  }

  /** A match of one of `alts` somewhere means the folded text contains
      that alternative's folded form. */
  lemma AltAtOccurs(t: string, i: nat, alts: seq<string>, e: nat)
    requires AltAt(t, i, alts, e)
    ensures exists j :: 0 <= j < |alts| && Occurs(FoldStr(t), FoldStr(alts[j]))
  {
    var j :| 0 <= j < |alts| && CiLitAt(t, i, alts[j]) && e == i + |alts[j]|;
    CiLitAtOccurs(t, i, alts[j]);
  }

  /** When the folded text holds none of the alternatives' folded forms,
      the group matches nowhere. */
  lemma NoAltAt(t: string, alts: seq<string>)
    requires forall j :: 0 <= j < |alts| ==> !Occurs(FoldStr(t), FoldStr(alts[j]))
    ensures forall i: nat, e: nat :: !AltAt(t, i, alts, e)
  {
    forall i: nat, e: nat
      ensures !AltAt(t, i, alts, e)
    {
      if AltAt(t, i, alts, e) {
        AltAtOccurs(t, i, alts, e);
      }
    }
  }

  /** A one-character literal that no other character folds to matches
      exactly that character. */
  lemma CiLitAtSymbol(t: string, i: nat, c: char)
    requires Fold(c) == c && forall d: char :: Fold(d) == c ==> d == c
    ensures CiLitAt(t, i, [c]) <==> i < |t| && t[i] == c
  {
    assert FoldStr([c]) == [c];
    if i < |t| {
      assert FoldStr(t[i..i + 1]) == [Fold(t[i])];
    }
  }

  /** An ignore-case match starts with a character that folds like the
      literal's first one. */
  lemma CiLitAtFirst(t: string, i: nat, w: string)
    requires CiLitAt(t, i, w) && |w| > 0
    ensures i < |t| && Fold(t[i]) == Fold(w[0])
  {
    assert FoldStr(t[i..i + |w|])[0] == Fold(t[i]);
  }

  /** A literal whose folded form begins with that of `v` can only match
      where `v` matches too. */
  lemma CiLitAtPrefix(t: string, i: nat, w: string, v: string)
    requires CiLitAt(t, i, w) && |v| <= |w| && FoldStr(v) == FoldStr(w)[..|v|]
    ensures CiLitAt(t, i, v)
  {
    assert t[i..i + |v|] == t[i..i + |w|][..|v|];
  }

  /** A piece of a text occurs in the text wherever it occurs in the piece. */
  lemma OccursInSlice(s: string, a: nat, b: nat, w: string)
    requires a <= b <= |s| && Occurs(s[a..b], w)
    ensures Occurs(s, w)
  {
    var i: nat :| i <= |s[a..b]| && OccursAt(s[a..b], w, i);
    var piece := s[a..b];
    assert i + |w| <= |piece| == b - a;
    forall k | 0 <= k < |w|
      ensures s[a + i + k] == w[k]
    {
      assert piece[i..i + |w|][k] == piece[i + k] == s[a + i + k];
    }
    assert s[a + i..a + i + |w|] == w;
    assert a + i <= |s| && OccursAt(s, w, a + i);
  }

  /** A word with a character that the text lacks does not occur in it. */
  lemma AbsentChar(s: string, w: string, m: nat)
    requires m < |w| && forall k :: 0 <= k < |s| ==> s[k] != w[m]
    ensures !Occurs(s, w)
  {
    forall i: nat | i + |w| <= |s|
      ensures !OccursAt(s, w, i)
    {
      assert s[i..i + |w|][m] == s[i + m];
    }
  }

  /** An ignore-case match of a literal without a newline spans no newline:
      folding leaves the newline alone and makes no other character one. */
  lemma CiLitAtGap(t: string, i: nat, w: string)
    requires CiLitAt(t, i, w) && OneLine(w)
    ensures Gap(t, i, i + |w|)
  {
    forall k | i <= k < i + |w|
      ensures t[k] != '\n'
    {
      assert FoldStr(t[i..i + |w|])[k - i] == Fold(t[k]);
      assert FoldStr(w)[k - i] == Fold(w[k - i]);
    }
  }

  /** The same for a group of such literals. */
  lemma AltAtGap(t: string, i: nat, alts: seq<string>, e: nat)
    requires AltAt(t, i, alts, e) && forall j :: 0 <= j < |alts| ==> OneLine(alts[j])
    ensures Gap(t, i, e)
  {
    var j :| 0 <= j < |alts| && CiLitAt(t, i, alts[j]) && e == i + |alts[j]|;
    CiLitAtGap(t, i, alts[j]);
  }

  /** Two adjacent stretches without a newline make one. */
  lemma GapJoin(t: string, i: nat, j: nat, k: nat)
    requires Gap(t, i, j) && Gap(t, j, k)
    ensures Gap(t, i, k)
  {
  }

  /** A word all of whose characters are their own key is its own folded form. */
  lemma FoldStrFixed(w: string)
    requires forall k :: 0 <= k < |w| ==> Fold(w[k]) == w[k]
    ensures FoldStr(w) == w
  {
  }

  /** A word all of whose characters are already lower-case is its own lower-case form. */
  lemma LowerStrFixed(w: string)
    requires forall k :: 0 <= k < |w| ==> Lower(w[k]) == w[k]
    ensures LowerStr(w) == w
  {
  }

  /** A run of `cls` characters from `a` that stops at a character outside
      `cls` stops at one place only. */
  lemma RunEndUnique(t: string, a: nat, x: nat, y: nat, cls: char -> bool)
    requires AllIn(t, a, x, cls) && x < |t| && !cls(t[x])
    requires AllIn(t, a, y, cls) && y < |t| && !cls(t[y])
    ensures x == y
  {
  }

  /** Alternatives whose first characters fold differently cannot match at
      the same position two at a time, so the group ends in one place. */
  lemma AltAtUnique(t: string, i: nat, alts: seq<string>, e: nat, f: nat)
    requires forall j :: 0 <= j < |alts| ==> |alts[j]| > 0
    requires forall j, m :: 0 <= j < m < |alts| ==> Fold(alts[j][0]) != Fold(alts[m][0])
    requires AltAt(t, i, alts, e) && AltAt(t, i, alts, f)
    ensures e == f
  {
    var j :| 0 <= j < |alts| && CiLitAt(t, i, alts[j]) && e == i + |alts[j]|;
    var m :| 0 <= m < |alts| && CiLitAt(t, i, alts[m]) && f == i + |alts[m]|;
    CiLitAtFirst(t, i, alts[j]);
    CiLitAtFirst(t, i, alts[m]);
  }

  /** Where one of alternatives that start with neither a digit nor white
      space matches, the text has neither a digit nor white space. */
  lemma AltAtNotDigitOrSpace(t: string, i: nat, alts: seq<string>, e: nat)
    requires forall j :: 0 <= j < |alts| ==> |alts[j]| > 0 && !IsDigit(Fold(alts[j][0])) && !IsSpace(Fold(alts[j][0]))
    requires AltAt(t, i, alts, e)
    ensures i < |t| && !IsDigit(t[i]) && !IsSpace(t[i])
  {
    var j :| 0 <= j < |alts| && CiLitAt(t, i, alts[j]) && e == i + |alts[j]|;
    CiLitAtFirst(t, i, alts[j]);
    FoldClass(t[i]);
  }
}
