/** The parts of Go's `strings` package the converter relies on, on strings
    modelled as sequences of characters. */
module GoStrings {

  /** strings.HasPrefix */
  predicate HasPrefix(s: string, p: string) {
    |p| <= |s| && s[..|p|] == p
  }

  /** strings.HasSuffix */
  predicate HasSuffix(s: string, p: string) {
    |p| <= |s| && s[|s| - |p|..] == p
  }

  /** strings.Contains: p occurs at some position of s (the empty string
      occurs everywhere). */
  predicate Contains(s: string, p: string)
    decreases |s|
  {
    HasPrefix(s, p) || (|s| > 0 && Contains(s[1..], p))
  }

  /** What strings.ReplaceAll does with an empty pattern: `rep` is inserted
      before every character and once more at the end. */
  function InsertEverywhere(s: string, rep: string): (r: string)
    ensures |r| == |s| + (|s| + 1) * |rep|
  {
    if |s| == 0 then rep else rep + [s[0]] + InsertEverywhere(s[1..], rep)
  }

  /** strings.ReplaceAll: scanning left to right, every non-overlapping
      occurrence of `pat` is replaced by `rep`. */
  function ReplaceAll(s: string, pat: string, rep: string): (r: string)
    ensures |pat| > 0 && !Contains(s, pat) ==> r == s
    decreases |s|
  {
    if |pat| == 0 then InsertEverywhere(s, rep)
    else if |s| < |pat| then s
    else if s[..|pat|] == pat then rep + ReplaceAll(s[|pat|..], pat, rep)
    else [s[0]] + ReplaceAll(s[1..], pat, rep)
  }

  /** A character occurs in s exactly when the one-character string does. */
  lemma {:induction false} ContainsChar(s: string, c: char)
    ensures Contains(s, [c]) <==> c in s
    decreases |s|
  {
    if |s| > 0 {
      ContainsChar(s[1..], c);
      assert s == [s[0]] + s[1..];
    }
  }

  /** Every character of an occurring pattern occurs in the string; so a
      string without some character contains no pattern that has it. */
  lemma {:induction false} ContainsHasChars(s: string, p: string, c: char)
    requires Contains(s, p) && c in p
    ensures c in s
    decreases |s|
  {
    if HasPrefix(s, p) {
      var i :| 0 <= i < |p| && p[i] == c;
      assert s[i] == c;
    } else {
      ContainsHasChars(s[1..], p, c);
    }
  }

  /** Replacing a pattern by itself changes nothing (Go short-cuts this case). */
  lemma {:induction false} ReplaceAllSelf(s: string, t: string)
    ensures ReplaceAll(s, t, t) == s
    decreases |s|
  {
    if |t| == 0 {
      InsertEmpty(s);
    } else if |s| < |t| {
    } else if s[..|t|] == t {
      ReplaceAllSelf(s[|t|..], t);
      assert s == s[..|t|] + s[|t|..];
    } else {
      ReplaceAllSelf(s[1..], t);
      assert s == [s[0]] + s[1..];
    }
  }

  lemma {:induction false} InsertEmpty(s: string)
    ensures InsertEverywhere(s, "") == s
    decreases |s|
  {
    if |s| > 0 {
      InsertEmpty(s[1..]);
      assert s == [s[0]] + s[1..];
    }
  }

  /** A string that is exactly the pattern becomes exactly the replacement. */
  lemma ReplaceAllWhole(t: string, rep: string)
    requires |t| > 0
    ensures ReplaceAll(t, t, rep) == rep
  {
    assert t[..|t|] == t;
    assert ReplaceAll(t[|t|..], t, rep) == [];
  }

  /** An occurrence in a prefix is an occurrence in the whole string. */
  lemma {:induction false} ContainsPrefix(x: string, y: string, p: string)
    requires Contains(x, p)
    ensures Contains(x + y, p)
    decreases |x|
  {
    if HasPrefix(x, p) {
      assert (x + y)[..|p|] == x[..|p|];
    } else {
      assert (x + y)[1..] == x[1..] + y;
      ContainsPrefix(x[1..], y, p);
    }
  }

  /** A pattern longer than the string does not occur in it. */
  lemma {:induction false} ContainsShort(s: string, p: string)
    requires |s| < |p|
    ensures !Contains(s, p)
    decreases |s|
  {
    if |s| > 0 {
      ContainsShort(s[1..], p);
    }
  }

  /** When the pattern's first occurrence in `a + p + b` is the `p` between
      them (nothing in `a`, and no occurrence that starts in `a` and runs
      into `p`), ReplaceAll treats `a` and `b` separately. */
  lemma {:induction false} ReplaceAllSplit(a: string, p: string, b: string, q: string)
    requires |p| > 0 && !Contains(a + p[..|p| - 1], p)
    ensures ReplaceAll(a + p + b, p, q) == ReplaceAll(a, p, q) + q + ReplaceAll(b, p, q)
    decreases |a|
  {
    NoneInHead(a, p);
    if |a| == 0 {
      assert a + p + b == p + b;
      ReplaceAllAtStart(p, b, q);
    } else {
      SplitStep(a, p, b);
      ReplaceAllSplit(a[1..], p, b, q);
      NoneInHead(a[1..], p);
      ReplaceAllSkip(a + p + b, p, q);
      assert ReplaceAll(a, p, q) == a;
      assert a == [a[0]] + a[1..];
    }
  }

  /** A text that starts with the pattern: the replacement, then the rest. */
  lemma ReplaceAllAtStart(p: string, b: string, q: string)
    requires |p| > 0
    ensures ReplaceAll(p + b, p, q) == q + ReplaceAll(b, p, q)
  {
    assert (p + b)[..|p|] == p && (p + b)[|p|..] == b;
  }

  /** A text that does not start with the pattern: its first character, then
      the rest replaced. */
  lemma ReplaceAllSkip(s: string, p: string, q: string)
    requires |p| > 0 && |p| <= |s| && s[..|p|] != p
    ensures ReplaceAll(s, p, q) == [s[0]] + ReplaceAll(s[1..], p, q)
  {
  }

  /** The pattern does not occur in `a` when it does not occur in `a`
      followed by the pattern's head. */
  lemma NoneInHead(a: string, p: string)
    requires |p| > 0 && !Contains(a + p[..|p| - 1], p)
    ensures !Contains(a, p)
  {
    if Contains(a, p) {
      ContainsPrefix(a, p[..|p| - 1], p);
    }
  }

  /** One step of ReplaceAllSplit: the first character of `a` is kept, and
      the rest of `a` meets the same condition. */
  lemma SplitStep(a: string, p: string, b: string)
    requires |p| > 0 && |a| > 0 && !Contains(a + p[..|p| - 1], p)
    ensures (a + p + b)[..|p|] != p
    ensures (a + p + b)[1..] == a[1..] + p + b
    ensures !Contains(a[1..] + p[..|p| - 1], p)
  {
    var h := a + p[..|p| - 1];
    assert !HasPrefix(h, p) && !Contains(h[1..], p);
    SplitHeads(a, p, b);
    SplitTails(a, p, b);
  }

  /** `a + p + b` and `a + p[..|p| - 1]` begin with the same |p| characters. */
  lemma SplitHeads(a: string, p: string, b: string)
    requires |p| > 0 && |a| > 0
    ensures (a + p + b)[..|p|] == (a + p[..|p| - 1])[..|p|]
  {
    var s, h := a + p + b, a + p[..|p| - 1];
    forall i | 0 <= i < |p|
      ensures s[i] == h[i]
    {
      if i >= |a| {
        assert s[i] == p[i - |a|];
        assert h[i] == p[..|p| - 1][i - |a|];
      }
    }
  }

  /** Dropping the first character of `a` from both texts. */
  lemma SplitTails(a: string, p: string, b: string)
    requires |p| > 0 && |a| > 0
    ensures (a + p + b)[1..] == a[1..] + p + b
    ensures (a + p[..|p| - 1])[1..] == a[1..] + p[..|p| - 1]
  {
  }

  /** Text put in front of what ReplaceAll yields cannot begin an occurrence
      that the original text would not begin, when the replacement cannot
      hold the pattern's last character and ends in one the rest of the
      pattern lacks. */
  lemma {:induction false} ReplaceAllNoNewStart(y: string, s: string, t: string, q: string)
    requires 0 < |t| && |y| <= |t| && |q| > 0
    requires t[|t| - 1] !in q && q[|q| - 1] !in t[..|t| - 1]
    ensures HasPrefix(y + ReplaceAll(s, t, q), t) ==> HasPrefix(y + s, t)
    decreases |s|
  {
    var r := ReplaceAll(s, t, q);
    if |y| == |t| {
      assert (y + r)[..|t|] == y;
      assert (y + s)[..|t|] == y;
    } else if |s| < |t| {
      assert r == s;
    } else if s[..|t|] == t {
      var w := ReplaceAll(s[|t|..], t, q);
      assert r == q + w;
      ReplacementBlocks(y, q, w, t);
    } else {
      var y', w := y + [s[0]], ReplaceAll(s[1..], t, q);
      assert r == [s[0]] + w;
      assert y + r == y' + w;
      assert y + s == y' + s[1..] by {
        assert s == [s[0]] + s[1..];
      }
      ReplaceAllNoNewStart(y', s[1..], t, q);
    }
  }

  /** An occurrence cannot start in the text before a replacement and run
      into it. */
  lemma ReplacementBlocks(y: string, q: string, w: string, t: string)
    requires 0 < |t| && |y| < |t| && |q| > 0
    requires t[|t| - 1] !in q && q[|q| - 1] !in t[..|t| - 1]
    ensures !HasPrefix(y + (q + w), t)
  {
    var z := y + (q + w);
    if |y| + |q| >= |t| {
      assert z[|t| - 1] == q[|t| - 1 - |y|];
      assert z[..|t|][|t| - 1] != t[|t| - 1];
    } else {
      assert z[|y| + |q| - 1] == q[|q| - 1];
      assert t[|y| + |q| - 1] == t[..|t| - 1][|y| + |q| - 1];
      assert |z| >= |t| ==> z[..|t|][|y| + |q| - 1] != t[|y| + |q| - 1];
    }
  }

  /** No occurrence starts inside the replacement text. */
  lemma {:induction false} ReplacementNoStart(q: string, k: nat, z: string, t: string)
    requires 0 < |t| && k <= |q| && |q| > 0
    requires t[|t| - 1] !in q && q[|q| - 1] !in t[..|t| - 1]
    requires !Contains(z, t)
    ensures !Contains(q[k..] + z, t)
    decreases |q| - k
  {
    var x := q[k..] + z;
    if k == |q| {
      assert x == z;
    } else {
      if k + |t| <= |q| {
        assert x[|t| - 1] == q[k + |t| - 1];
        assert x[..|t|][|t| - 1] != t[|t| - 1];
      } else {
        assert x[|q| - 1 - k] == q[|q| - 1];
        assert t[|q| - 1 - k] == t[..|t| - 1][|q| - 1 - k];
        assert |x| >= |t| ==> x[..|t|][|q| - 1 - k] != t[|q| - 1 - k];
      }
      assert x[1..] == q[k + 1..] + z;
      ReplacementNoStart(q, k + 1, z, t);
    }
  }

  /** ReplaceAll leaves no occurrence of the pattern when the replacement
      cannot take part in one: it does not hold the pattern's last
      character, and its own last character is not elsewhere in the
      pattern. */
  lemma {:induction false} ReplaceAllRemoves(s: string, t: string, q: string)
    requires 0 < |t| && |q| > 0
    requires t[|t| - 1] !in q && q[|q| - 1] !in t[..|t| - 1]
    ensures !Contains(ReplaceAll(s, t, q), t)
    decreases |s|
  {
    if |s| < |t| {
      ContainsShort(s, t);
    } else if s[..|t|] == t {
      ReplaceAllRemoves(s[|t|..], t, q);
      ReplacementNoStart(q, 0, ReplaceAll(s[|t|..], t, q), t);
      assert q[0..] == q;
    } else {
      var r := ReplaceAll(s[1..], t, q);
      ReplaceAllRemoves(s[1..], t, q);
      assert ([s[0]] + r)[1..] == r;
      assert [s[0]] + s[1..] == s;
      ReplaceAllNoNewStart([s[0]], s[1..], t, q);
    }
  }

  /** A pattern that starts at position k occurs in the string. */
  lemma {:induction false} ContainsSuffixAt(s: string, k: nat, p: string)
    requires k <= |s| && HasPrefix(s[k..], p)
    ensures Contains(s, p)
    decreases k
  {
    if k == 0 {
      assert s[0..] == s;
    } else {
      assert s[1..][k - 1..] == s[k..];
      ContainsSuffixAt(s[1..], k - 1, p);
    }
  }
}
