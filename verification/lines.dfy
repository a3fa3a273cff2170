/** Lines of a text: `str.split('\n')`, its inverse `'\n'.join(...)`, and
    `str.strip()` with no argument. */
module Lines {
  import opened Text

  /** `s.split('\n')`: the pieces between newlines, in order. There is always
      at least one piece, and an empty text gives one empty piece. */
  function Split(s: string): (r: seq<string>)
    ensures |r| >= 1
    decreases |s|
  {
    if |s| == 0 then [""]
    else
      var rest := Split(s[1..]);
      if s[0] == '\n' then [""] + rest
      else [[s[0]] + rest[0]] + rest[1..]
  }

  /** `'\n'.join(ls)`. */
  function Join(ls: seq<string>): (r: string)
    requires |ls| >= 1
    decreases |ls|
  {
    if |ls| == 1 then ls[0] else ls[0] + "\n" + Join(ls[1..])
  }

  /** No piece of a split holds a newline. */
  lemma {:induction false} SplitOneLine(s: string)
    ensures forall k :: 0 <= k < |Split(s)| ==> OneLine(Split(s)[k])
    decreases |s|
  {
    if |s| > 0 {
      SplitOneLine(s[1..]);
      var rest := Split(s[1..]);
      if s[0] != '\n' {
        assert OneLine([s[0]] + rest[0]);
        assert forall k :: 1 <= k < |Split(s)| ==> Split(s)[k] == rest[k];
      } else {
        assert forall k :: 1 <= k < |Split(s)| ==> Split(s)[k] == rest[k - 1];
      }
    }
  }

  /** Joining the pieces of a split gives the text back. */
  lemma {:induction false} JoinSplit(s: string)
    ensures Join(Split(s)) == s
    decreases |s|
  {
    if |s| > 0 {
      JoinSplit(s[1..]);
      var rest := Split(s[1..]);
      if s[0] == '\n' {
        assert ([""] + rest)[1..] == rest;
        assert s == "" + "\n" + s[1..];
      } else {
        var r := [[s[0]] + rest[0]] + rest[1..];
        if |rest| == 1 {
          assert s == [s[0]] + s[1..];
        } else {
          assert r[1..] == rest[1..];
          assert Join(rest) == rest[0] + "\n" + Join(rest[1..]);
          assert s == [s[0]] + s[1..];
        }
      }
    }
  }

  /** Splitting newline-free pieces that were joined gives the pieces back. */
  lemma {:induction false} SplitJoin(ls: seq<string>)
    requires |ls| >= 1 && forall k :: 0 <= k < |ls| ==> OneLine(ls[k])
    ensures Split(Join(ls)) == ls
    decreases |ls|
  {
    if |ls| == 1 {
      SplitLine(ls[0]);
    } else {
      SplitJoin(ls[1..]);
      SplitPrefix(ls[0], Join(ls[1..]));
      assert [ls[0]] + ls[1..] == ls;
    }
  }

  /** A newline-free text is a single piece. */
  lemma {:induction false} SplitLine(s: string)
    requires OneLine(s)
    ensures Split(s) == [s]
    decreases |s|
  {
    if |s| > 0 {
      SplitLine(s[1..]);
      assert [s[0]] + s[1..] == s;
    }
  }

  /** A newline-free piece followed by a newline starts the split. */
  lemma {:induction false} SplitPrefix(a: string, b: string)
    requires OneLine(a)
    ensures Split(a + "\n" + b) == [a] + Split(b)
    decreases |a|
  {
    if |a| == 0 {
      assert a + "\n" + b == "\n" + b;
      assert ("\n" + b)[1..] == b;
    } else {
      SplitPrefix(a[1..], b);
      var s := a + "\n" + b;
      assert s[0] == a[0] && s[1..] == a[1..] + "\n" + b;
      assert [a[0]] + a[1..] == a;
    }
  }

  /** A leading newline ends an empty first piece. */
  lemma SplitNewline(x: string)
    ensures Split(['\n'] + x) == [""] + Split(x)
  {
    assert (['\n'] + x)[1..] == x;
  }

  /** Any other leading character joins the first piece of the rest. */
  lemma SplitChar(c: char, x: string)
    requires c != '\n'
    ensures Split([c] + x) == [[c] + Split(x)[0]] + Split(x)[1..]
  {
    assert ([c] + x)[1..] == x;
  }

  /** Two texts joined by a newline split into the pieces of the first
      followed by the pieces of the second. */
  lemma {:induction false} SplitAppend(a: string, b: string)
    ensures Split(a + "\n" + b) == Split(a) + Split(b)
    decreases |a|
  {
    if |a| == 0 {
      assert a + "\n" + b == ['\n'] + b;
      SplitNewline(b);
    } else {
      SplitAppend(a[1..], b);
      assert a == [a[0]] + a[1..];
      assert a + "\n" + b == [a[0]] + (a[1..] + "\n" + b);
      if a[0] == '\n' {
        SplitAppendNewline(a[1..], b);
      } else {
        SplitAppendChar(a[0], a[1..], b);
      }
    }
  }

  /** The inductive step of `SplitAppend` for a leading newline. */
  lemma SplitAppendNewline(x: string, b: string)
    requires Split(x + "\n" + b) == Split(x) + Split(b)
    ensures Split(['\n'] + (x + "\n" + b)) == Split(['\n'] + x) + Split(b)
  {
    SplitNewline(x + "\n" + b);
    SplitNewline(x);
    assert [""] + (Split(x) + Split(b)) == [""] + Split(x) + Split(b);
  }

  /** The inductive step of `SplitAppend` for any other leading character. */
  lemma SplitAppendChar(c: char, x: string, b: string)
    requires c != '\n' && Split(x + "\n" + b) == Split(x) + Split(b)
    ensures Split([c] + (x + "\n" + b)) == Split([c] + x) + Split(b)
  {
    SplitChar(c, x + "\n" + b);
    SplitChar(c, x);
    GrowFirst([c], Split(x), Split(b));
  }

  /** Prefixing the first piece of a list of pieces commutes with appending
      more pieces. */
  lemma GrowFirst(p: string, rest: seq<string>, tail: seq<string>)
    requires |rest| >= 1
    ensures [p + (rest + tail)[0]] + (rest + tail)[1..] == [p + rest[0]] + rest[1..] + tail
  {
    assert (rest + tail)[1..] == rest[1..] + tail;
  }

  /** `s.lstrip()`: white space removed from the front. */
  function TrimStart(s: string): (r: string)
    ensures |r| <= |s| && r == s[|s| - |r|..]
    ensures forall k :: 0 <= k < |s| - |r| ==> IsSpace(s[k])
    ensures |r| == 0 || !IsSpace(r[0])
    decreases |s|
  {
    if |s| > 0 && IsSpace(s[0]) then TrimStart(s[1..]) else s
  }

  /** `s.rstrip()`: white space removed from the back. */
  function TrimEnd(s: string): (r: string)
    ensures |r| <= |s| && r == s[..|r|]
    ensures forall k :: |r| <= k < |s| ==> IsSpace(s[k])
    ensures |r| == 0 || !IsSpace(r[|r| - 1])
    decreases |s|
  {
    if |s| > 0 && IsSpace(s[|s| - 1]) then TrimEnd(s[..|s| - 1]) else s
  }

  /** `s.strip()`: white space removed from both ends, so that what is left
      neither begins nor ends with white space. */
  function Strip(s: string): (r: string)
    ensures |r| <= |s| && Stripped(r)
  {
    var u := TrimStart(s);
    var v := TrimEnd(u);
    assert |v| > 0 ==> v[0] == u[0];
    v
  }

  /** `t` neither begins nor ends with white space. */
  predicate Stripped(t: string)
  {
    |t| == 0 || (!IsSpace(t[0]) && !IsSpace(t[|t| - 1]))
  }

  /** `Strip(s)` is the piece of `s` between a run of white space at the front
      and one at the back, and it neither begins nor ends with white space. */
  lemma StripShape(s: string)
    ensures exists a: nat, b: nat :: a <= b <= |s| && Strip(s) == s[a..b]
              && AllIn(s, 0, a, IsSpace) && AllIn(s, b, |s|, IsSpace)
    ensures Stripped(Strip(s))
  {
    var u := TrimStart(s);
    Trimmed(s, u, TrimEnd(u));
  }

  /** A front piece `v` of a back piece `u` of `s`, where what is cut off is
      white space, is a slice of `s` between white space. */
  lemma Trimmed(s: string, u: string, v: string)
    requires |u| <= |s| && u == s[|s| - |u|..] && forall k :: 0 <= k < |s| - |u| ==> IsSpace(s[k])
    requires |v| <= |u| && v == u[..|v|] && forall k :: |v| <= k < |u| ==> IsSpace(u[k])
    ensures exists a: nat, b: nat :: a <= b <= |s| && v == s[a..b]
              && AllIn(s, 0, a, IsSpace) && AllIn(s, b, |s|, IsSpace)
  {
    var a := |s| - |u|;
    var b := a + |v|;
    assert v == s[a..b];
    forall k | b <= k < |s|
      ensures IsSpace(s[k])
    {
      assert s[k] == u[k - a];
    }
    assert AllIn(s, 0, a, IsSpace) && AllIn(s, b, |s|, IsSpace);
  }

  /** Stripping a stripped text changes nothing. */
  lemma StripStripped(s: string)
    requires Stripped(s)
    ensures Strip(s) == s
  {
  }

  /** `strip()` is idempotent. */
  lemma StripIdempotent(s: string)
    ensures Strip(Strip(s)) == Strip(s)
  {
    StripShape(s);
    StripStripped(Strip(s));
  }
}
