/** A small backtracking matcher in continuation-passing style, mirroring how
    Python's `re` engine explores a pattern. Each combinator matches one piece
    of a pattern at a position and hands every end position it can reach, in
    the engine's order of preference, to the continuation `k` (the rest of the
    pattern); the first end position for which the rest succeeds wins.

    Every combinator is specified by a declarative "step" relation between
    the start and end of its piece: it is sound (the winner went through a
    step) and complete (if any step lets the rest succeed, the combinator
    succeeds). */
module Regex {
  import opened Text

  datatype Option<T> = None | Some(value: T)

  /** The rest of a pattern, given the position where it starts. */
  type Cont<T> = nat -> Option<T>

  /** The literal `w`, matched ignoring case, then the rest. */
  function Lit<T>(t: string, i: nat, w: string, k: Cont<T>): Option<T>
  {
    if CiLitAt(t, i, w) then k(i + |w|) else None
  }

  /** `(a0|a1|...)`, a group of literal alternatives, then the rest: the
      alternatives are tried left to right and the first one after which the
      rest matches wins. */
  function Alt<T>(t: string, i: nat, alts: seq<string>, k: Cont<T>): (r: Option<T>)
    ensures r.Some? ==> exists e :: AltAt(t, i, alts, e) && r == k(e)
    ensures forall e :: AltAt(t, i, alts, e) && k(e).Some? ==> r.Some?
  {
    TryEachSound(t, i, alts, k);
    TryEachComplete(t, i, alts, k);
    TryEach(t, i, alts, k)
  }

  /** The alternatives in turn, left to right, until the rest succeeds after
      one of them; `Alt` states what this loop achieves. */
  function TryEach<T>(t: string, i: nat, alts: seq<string>, k: Cont<T>): Option<T>
    decreases |alts|
  {
    if |alts| == 0 then None
    else if Lit(t, i, alts[0], k).Some? then Lit(t, i, alts[0], k)
    else TryEach(t, i, alts[1..], k)
  }

  lemma {:induction false} TryEachSound<T>(t: string, i: nat, alts: seq<string>, k: Cont<T>)
    ensures var r := TryEach(t, i, alts, k);
            r.Some? ==> exists e :: AltAt(t, i, alts, e) && r == k(e)
    decreases |alts|
  {
    var r := TryEach(t, i, alts, k);
    if r.Some? && Lit(t, i, alts[0], k).None? {
      TryEachSound(t, i, alts[1..], k);
      var e :| AltAt(t, i, alts[1..], e) && r == k(e);
      var j :| 0 <= j < |alts[1..]| && CiLitAt(t, i, alts[1..][j]) && e == i + |alts[1..][j]|;
      assert alts[1..][j] == alts[j + 1];
    }
  }

  lemma {:induction false} TryEachComplete<T>(t: string, i: nat, alts: seq<string>, k: Cont<T>)
    ensures forall e :: AltAt(t, i, alts, e) && k(e).Some? ==> TryEach(t, i, alts, k).Some?
    decreases |alts|
  {
    if |alts| > 0 && Lit(t, i, alts[0], k).None? {
      TryEachComplete(t, i, alts[1..], k);
      forall e | AltAt(t, i, alts, e) && k(e).Some?
        ensures TryEach(t, i, alts[1..], k).Some?
      {
        var j :| 0 <= j < |alts| && CiLitAt(t, i, alts[j]) && e == i + |alts[j]|;
        assert j > 0;
        assert alts[1..][j - 1] == alts[j];
      }
    }
  }

  /** The end of a pattern: the match ends where the rest would start. */
  const Done: Cont<nat> := (e: nat) => Some(e)

  /** The group `Alt` settles on the first alternative after which the rest succeeds. */
  lemma AltFirst<T>(t: string, i: nat, alts: seq<string>, k: Cont<T>)
    requires Alt(t, i, alts, k).Some?
    ensures exists j :: FirstAlt(t, i, alts, k, j) && Alt(t, i, alts, k) == k(i + |alts[j]|)
  {
    TryEachFirst(t, i, alts, k);
  }

  /** When the loop succeeds, the winner is the first alternative after
      which the rest of the pattern succeeds. */
  lemma {:induction false} TryEachFirst<T>(t: string, i: nat, alts: seq<string>, k: Cont<T>)
    requires TryEach(t, i, alts, k).Some?
    ensures exists j :: FirstAlt(t, i, alts, k, j) && TryEach(t, i, alts, k) == k(i + |alts[j]|)
    decreases |alts|
  {
    var r := TryEach(t, i, alts, k);
    if Lit(t, i, alts[0], k).Some? {
      assert FirstAlt(t, i, alts, k, 0);
    } else {
      assert r == TryEach(t, i, alts[1..], k);
      TryEachFirst(t, i, alts[1..], k);
      var j :| FirstAlt(t, i, alts[1..], k, j) && r == k(i + |alts[1..][j]|);
      FirstAltNext(t, i, alts, k, j);
      assert FirstAlt(t, i, alts, k, j + 1) && r == k(i + |alts[j + 1]|);
    }
  }

  /** An alternative that is first among all but the leading one is first
      among all of them when the leading one does not get the rest to succeed. */
  lemma FirstAltNext<T>(t: string, i: nat, alts: seq<string>, k: Cont<T>, j: nat)
    requires |alts| > 0 && !(CiLitAt(t, i, alts[0]) && k(i + |alts[0]|).Some?)
    requires FirstAlt(t, i, alts[1..], k, j)
    ensures FirstAlt(t, i, alts, k, j + 1) && alts[j + 1] == alts[1..][j]
  {
    forall j' | 1 <= j' < j + 1
      ensures !(CiLitAt(t, i, alts[j']) && k(i + |alts[j']|).Some?)
    {
      assert alts[1..][j' - 1] == alts[j'];
    }
  }

  /** An alternative is shadowed by an earlier one that is a prefix of it,
      ignoring case: when the rest of the pattern succeeds after the earlier
      one, the group never settles on the later one. */
  lemma AltShadowed<T>(t: string, i: nat, alts: seq<string>, k: Cont<T>, m: nat, n: nat)
    requires Alt(t, i, alts, k).Some?
    requires m < n < |alts| && k(i + |alts[m]|).Some? && |alts[m]| <= |alts[n]| && FoldStr(alts[m]) == FoldStr(alts[n])[..|alts[m]|]
    ensures exists j :: 0 <= j < |alts| && j != n && CiLitAt(t, i, alts[j]) && Alt(t, i, alts, k) == k(i + |alts[j]|)
  {
    AltFirst(t, i, alts, k);
    var j :| FirstAlt(t, i, alts, k, j) && Alt(t, i, alts, k) == k(i + |alts[j]|);
    NotFirstWhenShadowed(t, i, alts, k, m, n, j);
  }

  /** The engine never settles on an alternative shadowed by an earlier
      one after which the rest of the pattern succeeds. */
  lemma NotFirstWhenShadowed<T>(t: string, i: nat, alts: seq<string>, k: Cont<T>, m: nat, n: nat, j: nat)
    requires FirstAlt(t, i, alts, k, j)
    requires m < n < |alts| && k(i + |alts[m]|).Some? && |alts[m]| <= |alts[n]| && FoldStr(alts[m]) == FoldStr(alts[n])[..|alts[m]|]
    ensures j != n
  {
    if j == n {
      CiLitAtPrefix(t, i, alts[n], alts[m]);
      assert false;
    }
  }

  /** Alternative `j` is the one the engine settles on: it matches, the rest
      succeeds after it, and no earlier alternative gets that far. */
  ghost predicate FirstAlt<T>(t: string, i: nat, alts: seq<string>, k: Cont<T>, j: int)
  {
    && 0 <= j < |alts|
    && CiLitAt(t, i, alts[j]) && k(i + |alts[j]|).Some?
    && forall j' :: 0 <= j' < j ==> !(CiLitAt(t, i, alts[j']) && k(i + |alts[j']|).Some?)
  }

  /** Length of the run of `cls` characters starting at `i`, cut off at `max`. */
  function Run(t: string, i: nat, cls: char -> bool, max: nat): (n: nat)
    ensures i <= |t| ==> AllIn(t, i, i + n, cls)
    ensures n <= max
    ensures n < max && i + n < |t| ==> !cls(t[i + n])
    decreases max
  {
    if max == 0 || i >= |t| || !cls(t[i]) then 0
    else 1 + Run(t, i + 1, cls, max - 1)
  }

  /** `k(i + c)`, `k(i + c - 1)`, ..., `k(i + min)`: the first that succeeds. */
  function Backtrack<T>(i: nat, c: nat, min: nat, k: Cont<T>): (r: Option<T>)
    ensures r.Some? ==> exists e :: i + min <= e <= i + c && r == k(e)
    ensures forall e :: i + min <= e <= i + c && k(e).Some? ==> r.Some?
    decreases c
  {
    if c < min then None
    else match k(i + c)
      case Some(v) => Some(v)
      case None => if c == min then None else Backtrack(i, c - 1, min, k)
  }

  /** The end positions a quantifier `cls{min,max}` can reach from `i`. */
  ghost predicate StarStep(t: string, i: nat, cls: char -> bool, min: nat, max: nat, e: nat)
  {
    i + min <= e <= i + max && AllIn(t, i, e, cls)
  }

  /** The greedy quantifier `cls{min,max}`, then the rest: the longest run is
      tried first and shortened one character at a time. An unbounded
      quantifier (`+`, `*`) is written with `max` = `|t|`. */
  function Star<T>(t: string, i: nat, cls: char -> bool, min: nat, max: nat, k: Cont<T>): (r: Option<T>)
    ensures r.Some? ==> exists e :: StarStep(t, i, cls, min, max, e) && r == k(e)
    ensures forall e :: StarStep(t, i, cls, min, max, e) && k(e).Some? ==> r.Some?
  {
    if i > |t| then None
    else
      var n := Run(t, i, cls, max);
      var r := Backtrack(i, n, min, k);
      assert forall e: nat :: StarStep(t, i, cls, min, max, e) ==> e <= i + n;
      assert r.Some? ==> exists e :: StarStep(t, i, cls, min, max, e) && r == k(e) by {
        if r.Some? {
          var e :| i + min <= e <= i + n && r == k(e);
          assert StarStep(t, i, cls, min, max, e);
        }
      }
      r
  }

  /** When the rest succeeds after the longest run, that run is taken: a
      greedy quantifier with nothing to backtrack for matches all it can. */
  lemma StarGreedy<T>(t: string, i: nat, cls: char -> bool, min: nat, max: nat, k: Cont<T>)
    requires i <= |t| && min <= Run(t, i, cls, max) && k(i + Run(t, i, cls, max)).Some?
    ensures Star(t, i, cls, min, max, k) == k(i + Run(t, i, cls, max))
  {
  }

  /** Whenever the quantifier succeeds, it has taken the longest run after
      which the rest succeeds: every longer run it could reach fails. */
  lemma StarLongest<T>(t: string, i: nat, cls: char -> bool, min: nat, max: nat, k: Cont<T>) returns (e: nat)
    requires Star(t, i, cls, min, max, k).Some?
    ensures StarStep(t, i, cls, min, max, e) && Star(t, i, cls, min, max, k) == k(e)
    ensures forall d :: StarStep(t, i, cls, min, max, d) && e < d ==> k(d).None?
  {
    var n := Run(t, i, cls, max);
    e := BacktrackLongest(i, n, min, k);
    assert forall d: nat :: StarStep(t, i, cls, min, max, d) ==> d <= i + n;
  }

  /** `Backtrack` stops at the first end, counting down, after which the rest succeeds. */
  lemma {:induction false} BacktrackLongest<T>(i: nat, c: nat, min: nat, k: Cont<T>) returns (e: nat)
    requires Backtrack(i, c, min, k).Some?
    ensures i + min <= e <= i + c && Backtrack(i, c, min, k) == k(e)
    ensures forall d :: e < d <= i + c ==> k(d).None?
    decreases c
  {
    if k(i + c).Some? {
      e := i + c;
    } else {
      e := BacktrackLongest(i, c - 1, min, k);
    }
  }

  /** A single character of the class `cls`, then the rest. */
  function One<T>(t: string, i: nat, cls: char -> bool, k: Cont<T>): Option<T>
  {
    if i < |t| && cls(t[i]) then k(i + 1) else None
  }

  /** `.*?`, then the rest: the shortest stretch is tried first and grown one
      character at a time, but never across a newline. */
  function Lazy<T>(t: string, i: nat, k: Cont<T>): (r: Option<T>)
    ensures r.Some? ==> exists e :: Gap(t, i, e) && r == k(e) && forall d :: i <= d < e ==> k(d).None?
    ensures forall e :: Gap(t, i, e) && k(e).Some? ==> r.Some?
    decreases |t| - i
  {
    if i > |t| then None
    else match k(i)
      case Some(v) => Some(v)
      case None => if i == |t| || t[i] == '\n' then None else Lazy(t, i + 1, k)
  }

  /** Where `.*?` stops: the first position after which the rest succeeds. */
  lemma LazyStop<T>(t: string, i: nat, k: Cont<T>) returns (e: nat)
    requires Lazy(t, i, k).Some?
    ensures Gap(t, i, e) && Lazy(t, i, k) == k(e)
    ensures forall d :: i <= d < e ==> k(d).None?
  {
    e :| Gap(t, i, e) && Lazy(t, i, k) == k(e) && forall d :: i <= d < e ==> k(d).None?;
  }

  /** The scan of `re.search` from position `from`: the pattern `m` is tried
      at `from`, `from + 1`, ..., `|t|`, and the first start that matches wins. */
  function Leftmost<T>(t: string, from: nat, m: Cont<T>): (r: Option<(nat, T)>)
    ensures r.Some? ==> from <= r.value.0 <= |t| && m(r.value.0) == Some(r.value.1)
    ensures r.Some? ==> forall i :: from <= i < r.value.0 ==> m(i).None?
    ensures r.None? <==> forall i :: from <= i <= |t| ==> m(i).None?
    decreases |t| - from
  {
    if from > |t| then None
    else match m(from)
      case Some(v) => Some((from, v))
      case None => if from == |t| then None else Leftmost(t, from + 1, m)
  }

  /** No start before the one `Leftmost` reports matches. */
  lemma LeftmostFirst<T>(t: string, from: nat, m: Cont<T>, i: nat)
    requires from <= i <= |t| && m(i).Some?
    ensures Leftmost(t, from, m).Some? && Leftmost(t, from, m).value.0 <= i
  {
  }
}
