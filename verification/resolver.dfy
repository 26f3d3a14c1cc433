/** Theme.eval: the resolution of a raw theme value (variable references and
    color notations) into its final text. */
module Resolver {
  import opened Results
  import opened GoStrings

  /** Every replace loop of the resolver stops after this many rounds. */
  const MaxRounds: nat := 16

  // ---------------------------------------------------------------------
  // The variable matcher: the leftmost match of `var\(([^)]+)\)`.

  /** The text of a reference to the variable `name`. */
  function VarText(name: string): string {
    "var(" + name + ")"
  }

  /** What the capture group `[^)]+` accepts. */
  predicate IsVarName(name: string) {
    |name| > 0 && ')' !in name
  }

  /** The index of the first ')' of s, if any. */
  function CloseParen(s: string): (r: Option<nat>)
    ensures r.Some? ==> r.value < |s| && s[r.value] == ')' && ')' !in s[..r.value]
    ensures r.None? ==> ')' !in s
  {
    if |s| == 0 then None
    else if s[0] == ')' then Some(0)
    else match CloseParen(s[1..])
      case None => None
      case Some(j) =>
        assert s[..j + 1] == [s[0]] + s[1..][..j];
        Some(j + 1)
  }

  lemma CloseParenAt(s: string, k: nat)
    requires k < |s| && s[k] == ')' && ')' !in s[..k]
    ensures CloseParen(s) == Some(k)
  {
  }

  /** The name of a variable reference that starts exactly at the beginning
      of s: `var(` followed by one or more characters up to the first ')'. */
  function VarAt(s: string): (r: Option<string>)
    ensures r.Some? ==> IsVarName(r.value) && HasPrefix(s, VarText(r.value))
  {
    if HasPrefix(s, "var(") then
      match CloseParen(s[4..])
      case Some(j) =>
        if j > 0 then
          assert s[..4 + j + 1] == "var(" + s[4..4 + j] + ")" by {
            assert s[..4] == "var(";
            assert s[4..][j] == s[4 + j];
          }
          Some(s[4..4 + j])
        else None
      case None => None
    else None
  }

  /** varRegex.FindStringSubmatch: the name in the leftmost variable
      reference. */
  function FindVar(s: string): (r: Option<string>)
    ensures r.Some? ==> IsVarName(r.value) && Contains(s, VarText(r.value))
    decreases |s|
  {
    match VarAt(s)
    case Some(n) => Some(n)
    case None => if |s| == 0 then None else FindVar(s[1..])
  }

  /** The match is the leftmost one: it is the reference that starts at the
      first position where any reference starts, and without a match no
      reference starts anywhere. */
  lemma {:induction false} FindVarLeftmost(s: string)
    ensures FindVar(s).Some? ==>
      exists i :: 0 <= i < |s| && VarAt(s[i..]) == FindVar(s) && forall j :: 0 <= j < i ==> VarAt(s[j..]).None?
    ensures FindVar(s).None? ==> forall j :: 0 <= j <= |s| ==> VarAt(s[j..]).None?
    decreases |s|
  {
    if VarAt(s).Some? {
      assert s[0..] == s;
    } else if |s| == 0 {
      assert forall j :: 0 <= j <= |s| ==> s[j..] == s;
    } else {
      FindVarLeftmost(s[1..]);
      if FindVar(s).Some? {
        var k :| 0 <= k < |s[1..]| && VarAt(s[1..][k..]) == FindVar(s[1..])
          && forall j :: 0 <= j < k ==> VarAt(s[1..][j..]).None?;
        ShiftedStarts(s, k);
        assert s[1..][k..] == s[k + 1..];
      } else {
        ShiftedStarts(s, |s| - 1);
        assert s[1..][|s| - 1..] == s[|s|..];
      }
    }
  }

  /** Positions 1 to k + 1 of s are positions 0 to k of s[1..]. */
  lemma ShiftedStarts(s: string, k: nat)
    requires 0 <= k < |s| && VarAt(s).None?
    requires forall j :: 0 <= j < k ==> VarAt(s[1..][j..]).None?
    ensures forall j :: 0 <= j < k + 1 ==> VarAt(s[j..]).None?
  {
    forall j | 0 <= j < k + 1 ensures VarAt(s[j..]).None? {
      if j == 0 {
        assert s[0..] == s;
      } else {
        assert s[1..][j - 1..] == s[j..];
      }
    }
  }

  /** A string that starts with a reference to a valid name is matched there. */
  lemma VarAtText(name: string, rest: string)
    requires IsVarName(name)
    ensures VarAt(VarText(name) + rest) == Some(name)
  {
    var s := VarText(name) + rest;
    assert s[..4] == "var(";
    assert s[4..] == name + ")" + rest;
    CloseParenAt(s[4..], |name|);
    assert s[4..4 + |name|] == name;
  }

  /** The matcher finds nothing exactly when no reference to a valid name
      occurs anywhere. */
  lemma {:induction false} FindVarNone(s: string)
    ensures FindVar(s).None? <==> forall n :: IsVarName(n) ==> !Contains(s, VarText(n))
    decreases |s|
  {
    if FindVar(s).None? {
      forall n | IsVarName(n)
        ensures !Contains(s, VarText(n))
      {
        if HasPrefix(s, VarText(n)) {
          assert s == VarText(n) + s[|VarText(n)|..];
          VarAtText(n, s[|VarText(n)|..]);
        }
        if |s| > 0 {
          FindVarNone(s[1..]);
        }
      }
    }
  }

  /** Without any ')' there is no variable reference. */
  lemma {:induction false} NoCloseNoVar(s: string)
    requires ')' !in s
    ensures FindVar(s).None?
    decreases |s|
  {
    if |s| > 0 {
      if HasPrefix(s, "var(") {
        assert forall c :: c in s[4..] ==> c in s;
      }
      assert forall c :: c in s[1..] ==> c in s;
      NoCloseNoVar(s[1..]);
    }
  }

  // ---------------------------------------------------------------------
  // Replace loops.

  /** One match found by a stage's pattern, and the text it is replaced by. */
  datatype Match = Match(text: string, replacement: string)

  /** A stage's matcher: the leftmost match in a string, if any, with its
      replacement. */
  type Finder = string -> Option<Match>

  /** The common skeleton of replaceVariables and the color conversions: up
      to `rounds` times, find the leftmost match and replace every occurrence
      of its text; stop early when nothing matches. */
  function Rounds(find: Finder, data: string, rounds: nat): (r: string)
    ensures find(data).None? ==> r == data
    decreases rounds
  {
    if rounds == 0 then data
    else match find(data)
      case None => data
      case Some(m) => Rounds(find, ReplaceAll(data, m.text, m.replacement), rounds - 1)
  }

  /** Running a + b rounds is running a rounds and then b more on what they
      leave; a round that finds nothing ends both sides alike. */
  lemma {:induction false} RoundsSplit(find: Finder, data: string, a: nat, b: nat)
    ensures Rounds(find, data, a + b) == Rounds(find, Rounds(find, data, a), b)
    decreases a
  {
    if a > 0 {
      match find(data)
      case None =>
      case Some(m) => RoundsSplit(find, ReplaceAll(data, m.text, m.replacement), a - 1, b);
    }
  }

  /** The first of n rounds, and n - 1 more on what it leaves. */
  lemma RoundsFirst(find: Finder, data: string, n: nat)
    requires 0 < n
    ensures Rounds(find, data, n) == Rounds(find, Rounds(find, data, 1), n - 1)
  {
  }

  /** Texts each of which one round turns into the next. */
  predicate Path(find: Finder, ts: seq<string>)
    decreases |ts|
  {
    |ts| > 1 ==> Rounds(find, ts[0], 1) == ts[1] && Path(find, ts[1..])
  }

  /** Along a path, n rounds lead from its first text to its n-th. */
  lemma {:induction false} PathRounds(find: Finder, ts: seq<string>, n: nat)
    requires Path(find, ts) && n < |ts|
    ensures Rounds(find, ts[0], n) == ts[n]
    decreases n
  {
    if n > 0 {
      RoundsFirst(find, ts[0], n);
      PathRounds(find, ts[1..], n - 1);
    }
  }

  /** The value a reference to `name` is replaced by. */
  function Lookup(vars: map<string, string>, name: string): string {
    if name in vars then vars[name] else "[UNKNOWN-VAR:" + name + "]"
  }

  /** The matcher of replaceVariables: the leftmost reference and its value. */
  function VarFinder(vars: map<string, string>): Finder {
    s => match FindVar(s)
         case None => None
         case Some(n) => Some(Match(VarText(n), Lookup(vars, n)))
  }

  /** Where FindVar finds nothing, the matcher finds nothing. */
  lemma NoRefNoMatch(vars: map<string, string>, data: string)
    requires FindVar(data).None?
    ensures VarFinder(vars)(data).None?
  {
  }

  /** replaceVariables: at most MaxRounds rounds of expanding the leftmost
      reference at every occurrence of its text. */
  function ReplaceVariables(vars: map<string, string>, data: string): (r: string)
    ensures FindVar(data).None? ==> r == data
  {
    Rounds(VarFinder(vars), data, MaxRounds)
  }

  /** A string without references is a fixed point of every number of rounds. */
  lemma VarRoundsStable(vars: map<string, string>, data: string, rounds: nat)
    requires FindVar(data).None?
    ensures Rounds(VarFinder(vars), data, rounds) == data
  {
  }

  /** A variable defined as a reference to itself does not loop: every round
      replaces its reference by itself and the cap ends the loop. */
  lemma SelfReference(vars: map<string, string>, name: string, rounds: nat)
    requires IsVarName(name) && name in vars && vars[name] == VarText(name)
    ensures Rounds(VarFinder(vars), VarText(name), rounds) == VarText(name)
  {
    RefMatched(vars, name);
    ReplaceAllSelf(VarText(name), VarText(name));
    RoundsFixedPoint(VarFinder(vars), VarText(name), rounds);
  }

  /** A text that a round leaves as it is stays so for every number of
      rounds. */
  lemma {:induction false} RoundsFixedPoint(find: Finder, data: string, rounds: nat)
    requires find(data).Some? ==> ReplaceAll(data, find(data).value.text, find(data).value.replacement) == data
    ensures Rounds(find, data, rounds) == data
    decreases rounds
  {
    if rounds > 0 && find(data).Some? {
      RoundsFixedPoint(find, data, rounds - 1);
    }
  }

  /** The matcher finds a lone reference and pairs it with its value. */
  lemma RefMatched(vars: map<string, string>, name: string)
    requires IsVarName(name)
    ensures VarFinder(vars)(VarText(name)) == Some(Match(VarText(name), Lookup(vars, name)))
  {
    VarAtText(name, "");
    assert VarText(name) + "" == VarText(name);
  }

  /** A reference to a variable that is defined with a value free of
      references expands to that value. */
  lemma KnownVariable(vars: map<string, string>, name: string)
    requires IsVarName(name) && name in vars && FindVar(vars[name]).None?
    ensures ReplaceVariables(vars, VarText(name)) == vars[name]
  {
    VarAtText(name, "");
    assert VarText(name) + "" == VarText(name);
    ReplaceAllWhole(VarText(name), vars[name]);
    SingleRound(vars, VarText(name), name);
  }

  /** The placeholder for an unknown variable. */
  function UnknownVar(name: string): string {
    "[UNKNOWN-VAR:" + name + "]"
  }

  lemma UnknownVarFree(name: string)
    requires IsVarName(name)
    ensures ')' !in UnknownVar(name)
  {
    assert forall i :: 0 <= i < |UnknownVar(name)| ==>
      UnknownVar(name)[i] in "[UNKNOWN-VAR:" || UnknownVar(name)[i] in name || UnknownVar(name)[i] == ']';
  }

  /** In a reference to a valid name the only ')' is the last character. */
  lemma RefCloseOnlyLast(name: string, i: nat)
    requires IsVarName(name) && i < |VarText(name)| - 1
    ensures VarText(name)[i] != ')'
  {
    if 4 <= i {
      assert VarText(name)[i] == name[i - 4];
    }
  }

  /** Before the final reference, at every start position inside u the
      reference text does not begin. */
  lemma NotRefBeforeTail(u: string, name: string)
    requires IsVarName(name) && ')' !in u && |u| > 0
    ensures (u + VarText(name))[..|VarText(name)|] != VarText(name)
  {
    var t := VarText(name);
    var s := u + t;
    var last := |t| - 1;
    assert t[last] == ')';
    if last < |u| {
      assert s[last] == u[last];
    } else {
      RefCloseOnlyLast(name, last - |u|);
      assert s[last] == t[last - |u|];
    }
    assert s[..|t|][last] == s[last];
  }

  /** ReplaceAll of a reference to a valid name on `u + t`, where u has no ')':
      the only occurrence is the final one. */
  lemma {:induction false} ReplaceTrailingRef(u: string, name: string, rep: string)
    requires IsVarName(name) && ')' !in u
    ensures ReplaceAll(u + VarText(name), VarText(name), rep) == u + rep
    decreases |u|
  {
    var t := VarText(name);
    if |u| == 0 {
      assert u + t == t;
      ReplaceAllWhole(t, rep);
    } else {
      NotRefBeforeTail(u, name);
      assert ')' !in u[1..] by {
        assert forall i :: 0 <= i < |u[1..]| ==> u[1..][i] == u[i + 1];
      }
      ReplaceTrailingRef(u[1..], name, rep);
      ReplaceSkipsFirst(u, t, rep);
    }
  }

  /** Where the pattern does not start, ReplaceAll keeps the first character
      and carries on after it. */
  lemma ReplaceSkipsFirst(u: string, t: string, rep: string)
    requires |u| > 0 && |t| > 0
    requires (u + t)[..|t|] != t
    requires ReplaceAll(u[1..] + t, t, rep) == u[1..] + rep
    ensures ReplaceAll(u + t, t, rep) == u + rep
  {
    var s := u + t;
    assert |s| >= |t| && s[0] == u[0];
    assert s[1..] == u[1..] + t;
    assert ReplaceAll(s, t, rep) == [u[0]] + ReplaceAll(s[1..], t, rep);
    HeadTail(u, rep);
  }

  lemma HeadTail(u: string, rest: string)
    requires |u| > 0
    ensures [u[0]] + (u[1..] + rest) == u + rest
  {
    assert u == [u[0]] + u[1..];
  }

  /** When the first round leaves no reference, it is the only round. */
  lemma SingleRound(vars: map<string, string>, data: string, name: string)
    requires FindVar(data) == Some(name)
    requires FindVar(ReplaceAll(data, VarText(name), Lookup(vars, name))).None?
    ensures ReplaceVariables(vars, data) == ReplaceAll(data, VarText(name), Lookup(vars, name))
  {
    var next := ReplaceAll(data, VarText(name), Lookup(vars, name));
    assert VarFinder(vars)(data) == Some(Match(VarText(name), Lookup(vars, name)));
    assert Rounds(VarFinder(vars), data, MaxRounds) == Rounds(VarFinder(vars), next, MaxRounds - 1);
    VarRoundsStable(vars, next, MaxRounds - 1);
  }

  /** The same reference to a missing name twice, with text free of ')'
      between: one round turns both into the placeholder `[UNKNOWN-VAR:NAME]`
      and the loop stops there. */
  lemma UnknownVariable(vars: map<string, string>, name: string, sep: string)
    requires IsVarName(name) && name !in vars && ')' !in sep
    ensures ReplaceVariables(vars, VarText(name) + sep + VarText(name))
         == UnknownVar(name) + sep + UnknownVar(name)
  {
    var t := VarText(name);
    var p := UnknownVar(name);
    var s := t + sep + t;
    assert s == t + (sep + t);
    VarAtText(name, sep + t);
    assert FindVar(s) == Some(name);
    assert s[..|t|] == t;
    assert s[|t|..] == sep + t;
    ReplaceTrailingRef(sep, name, p);
    assert ReplaceAll(s, t, p) == p + ReplaceAll(sep + t, t, p);
    var s' := p + sep + p;
    assert ReplaceAll(s, t, p) == s';
    UnknownVarFree(name);
    assert ')' !in s' by {
      assert forall i :: 0 <= i < |s'| ==> s'[i] in p || s'[i] in sep;
    }
    NoCloseNoVar(s');
    SingleRound(vars, s, name);
  }

  /** The first round on a text whose leftmost reference names a missing
      variable replaces that reference everywhere by the placeholder and
      leaves no occurrence of it, provided the name has no ']': the
      placeholder then cannot combine with the text after it into a new
      reference. */
  lemma UnknownRoundRemoves(vars: map<string, string>, data: string, name: string)
    requires FindVar(data) == Some(name) && name !in vars && ']' !in name
    ensures VarFinder(vars)(data) == Some(Match(VarText(name), UnknownVar(name)))
    ensures !Contains(ReplaceAll(data, VarText(name), UnknownVar(name)), VarText(name))
  {
    var t, q := VarText(name), UnknownVar(name);
    UnknownVarFree(name);
    assert t[|t| - 1] == ')';
    assert q[|q| - 1] == ']';
    assert t[..|t| - 1] == "var(" + name;
    assert ']' !in t[..|t| - 1] by {
      forall i | 0 <= i < |t| - 1 ensures t[i] != ']' {
        if i >= 4 {
          assert t[i] == name[i - 4];
        }
      }
    }
    ReplaceAllRemoves(data, t, q);
  }

  /** Without that proviso a reference can survive its round: in
      `var(x]var(x)var(x)` the leftmost reference names `x]var(x`, and its
      placeholder ends in `x]`, which with the `var(x)` after it spells the
      same reference again. */
  lemma UnknownRoundStraddle()
    ensures var name := "x]var(x";
      var data := VarText(name) + "var(x)";
      FindVar(data) == Some(name)
      && Contains(ReplaceAll(data, VarText(name), UnknownVar(name)), VarText(name))
  {
    var name := "x]var(x";
    var t := VarText(name);
    var data := t + "var(x)";
    VarAtText(name, "var(x)");
    assert data[..|t|] == t && data[|t|..] == "var(x)";
    assert ReplaceAll("var(x)", t, UnknownVar(name)) == "var(x)";
    var out := UnknownVar(name) + "var(x)";
    assert ReplaceAll(data, t, UnknownVar(name)) == out;
    assert out[15..] == t;
    ContainsSuffixAt(out, 15, t);
  }

  /** A chain of variables: each name but the last is defined as a reference
      to the next one. */
  predicate Chain(vars: map<string, string>, chain: seq<string>)
    decreases |chain|
  {
    && |chain| > 0
    && IsVarName(chain[0])
    && (|chain| > 1 ==> chain[0] in vars && vars[chain[0]] == VarText(chain[1]) && Chain(vars, chain[1..]))
  }

  /** Every name of a chain is valid, and each but the last is defined as a
      reference to the next. */
  lemma {:induction false} ChainLink(vars: map<string, string>, chain: seq<string>, i: nat)
    requires Chain(vars, chain) && i < |chain|
    ensures IsVarName(chain[i])
    ensures i + 1 < |chain| ==> chain[i] in vars && vars[chain[i]] == VarText(chain[i + 1])
    decreases i
  {
    if i > 0 {
      ChainLink(vars, chain[1..], i - 1);
    }
  }

  /** A round on a lone reference replaces it by what the name looks up to. */
  lemma RoundOnRef(vars: map<string, string>, name: string)
    requires IsVarName(name)
    ensures Rounds(VarFinder(vars), VarText(name), 1) == Lookup(vars, name)
  {
    RefMatched(vars, name);
    ReplaceAllWhole(VarText(name), Lookup(vars, name));
  }

  /** The texts the rounds go through on a reference to a chain's first
      name: the references to its names in turn, then what the last name
      looks up to. */
  function ChainTexts(vars: map<string, string>, chain: seq<string>): (ts: seq<string>)
    requires |chain| > 0
    ensures |ts| == |chain| + 1
    decreases |chain|
  {
    [VarText(chain[0])] + (if |chain| == 1 then [Lookup(vars, chain[0])] else ChainTexts(vars, chain[1..]))
  }

  /** The i-th text is the reference to the i-th name, and the last is the
      last name's lookup. */
  lemma {:induction false} ChainTextsAt(vars: map<string, string>, chain: seq<string>, i: nat)
    requires 0 < |chain| && i <= |chain|
    ensures ChainTexts(vars, chain)[i] == if i < |chain| then VarText(chain[i]) else Lookup(vars, chain[|chain| - 1])
    decreases i
  {
    if i > 0 && |chain| > 1 {
      ChainTextsAt(vars, chain[1..], i - 1);
    }
  }

  /** The rounds follow a chain link by link. */
  lemma {:induction false} ChainPath(vars: map<string, string>, chain: seq<string>)
    requires Chain(vars, chain)
    ensures Path(VarFinder(vars), ChainTexts(vars, chain))
    decreases |chain|
  {
    var ts := ChainTexts(vars, chain);
    RoundOnRef(vars, chain[0]);
    if |chain| > 1 {
      ChainPath(vars, chain[1..]);
      assert ts[1..] == ChainTexts(vars, chain[1..]);
    }
  }

  /** Each round follows one link of a chain: after n rounds a reference to
      its first name has become a reference to its n-th name. */
  lemma ChainRounds(vars: map<string, string>, chain: seq<string>, n: nat)
    requires Chain(vars, chain) && n < |chain|
    ensures Rounds(VarFinder(vars), VarText(chain[0]), n) == VarText(chain[n])
  {
    ChainPath(vars, chain);
    ChainTextsAt(vars, chain, 0);
    ChainTextsAt(vars, chain, n);
    PathRounds(VarFinder(vars), ChainTexts(vars, chain), n);
  }

  /** A chain whose last name looks up to a text without references is
      resolved by as many rounds as the chain has names. */
  lemma ChainResolves(vars: map<string, string>, chain: seq<string>, rounds: nat)
    requires Chain(vars, chain) && |chain| <= rounds
    requires FindVar(Lookup(vars, chain[|chain| - 1])).None?
    ensures Rounds(VarFinder(vars), VarText(chain[0]), rounds) == Lookup(vars, chain[|chain| - 1])
  {
    var k := |chain| - 1;
    ChainPath(vars, chain);
    ChainTextsAt(vars, chain, 0);
    ChainTextsAt(vars, chain, |chain|);
    PathRounds(VarFinder(vars), ChainTexts(vars, chain), |chain|);
    NoRefNoMatch(vars, Lookup(vars, chain[k]));
    RoundsSettle(VarFinder(vars), VarText(chain[0]), |chain|, rounds);
  }

  /** Once the rounds have reached a text the finder finds nothing in, more
      rounds leave it as it is. */
  lemma RoundsSettle(find: Finder, data: string, k: nat, rounds: nat)
    requires k <= rounds && find(Rounds(find, data, k)).None?
    ensures Rounds(find, data, rounds) == Rounds(find, data, k)
  {
    RoundsSplit(find, data, k, rounds - k);
  }

  /** A chain of up to 16 names ending in an undefined variable resolves to
      that variable's placeholder within the round cap. */
  lemma ChainToUnknown(vars: map<string, string>, chain: seq<string>)
    requires Chain(vars, chain) && |chain| <= MaxRounds && chain[|chain| - 1] !in vars
    ensures ReplaceVariables(vars, VarText(chain[0])) == UnknownVar(chain[|chain| - 1])
  {
    var last := chain[|chain| - 1];
    ChainLink(vars, chain, |chain| - 1);
    UnknownVarFree(last);
    NoCloseNoVar(UnknownVar(last));
    ChainResolves(vars, chain, MaxRounds);
  }

  /** In particular a variable defined as a reference to an undefined one
      resolves to the undefined one's placeholder. */
  lemma LinkToUnknown(vars: map<string, string>, a: string, b: string)
    requires IsVarName(a) && IsVarName(b) && a in vars && vars[a] == VarText(b) && b !in vars
    ensures ReplaceVariables(vars, VarText(a)) == UnknownVar(b)
  {
    assert Chain(vars, [b]);
    assert Chain(vars, [a, b]) by {
      assert [a, b][1..] == [b];
    }
    ChainToUnknown(vars, [a, b]);
  }

  /** A longer chain outlasts the cap: the loop stops at a reference to the
      name sixteen links on, still unresolved. */
  lemma ChainPastCap(vars: map<string, string>, chain: seq<string>)
    requires Chain(vars, chain) && |chain| > MaxRounds
    ensures ReplaceVariables(vars, VarText(chain[0])) == VarText(chain[MaxRounds])
  {
    ChainRounds(vars, chain, MaxRounds);
  }

  // ---------------------------------------------------------------------
  // Color notations.

  /** The color conversions. Matching each pattern and rendering the color
      through the color library (parsing, HSL to RGB, alpha, hex output) is
      done by code outside this model, so each stage is given as a matcher;
      the rgb stage, whose matching is modelled below, is given only the
      rendering of its three components. */
  datatype ColorLibrary = ColorLibrary(
    color: Finder,
    rgb: (string, string, string) -> string,
    rgba: Finder,
    hsl: Finder,
    hsla: Finder)

  /** The length of the run of ASCII digits at the start of s. */
  function DigitRun(s: string): (n: nat)
    ensures n <= |s|
  {
    if |s| > 0 && '0' <= s[0] <= '9' then 1 + DigitRun(s[1..]) else 0
  }

  /** s without its leading spaces. */
  function SkipSpaces(s: string): (r: string)
    ensures |r| <= |s|
  {
    if |s| > 0 && s[0] == ' ' then SkipSpaces(s[1..]) else s
  }

  /** `\d+` followed by `sep`: the text after the separator. */
  function Number(s: string, sep: char): (r: Option<string>)
    ensures r.Some? ==> |r.value| < |s|
  {
    var n := DigitRun(s);
    if 0 < n < |s| && s[n] == sep then Some(s[n + 1..]) else None
  }

  /** Where rgbRegex `rgb\(\d+, *\d+, *\d+\)` matching at the start of s
      ends. Every part of the pattern is deterministic, so greedy matching
      cannot backtrack. */
  function RgbEnd(s: string): (r: Option<nat>)
    ensures r.Some? ==> 4 < r.value <= |s| && HasPrefix(s, "rgb(")
  {
    if !HasPrefix(s, "rgb(") then None
    else match Number(s[4..], ',')
      case None => None
      case Some(r1) =>
        match Number(SkipSpaces(r1), ',')
        case None => None
        case Some(r2) =>
          match Number(SkipSpaces(r2), ')')
          case None => None
          case Some(r3) => Some(|s| - |r3|)
  }

  /** rgbRegex matches at the start of s. */
  predicate RgbAt(s: string) {
    RgbEnd(s).Some?
  }

  /** rgbRegex matches somewhere in s. */
  predicate RgbMatches(s: string)
    decreases |s|
  {
    RgbAt(s) || (|s| > 0 && RgbMatches(s[1..]))
  }

  /** A match at any position is a match of the text. */
  lemma {:induction false} RgbMatchesAt(s: string, k: nat)
    requires k <= |s| && RgbAt(s[k..])
    ensures RgbMatches(s)
    decreases k
  {
    if k == 0 {
      assert s[0..] == s;
    } else {
      assert s[1..][k - 1..] == s[k..];
      RgbMatchesAt(s[1..], k - 1);
    }
  }

  lemma {:induction false} RgbMatchesContains(s: string)
    requires RgbMatches(s)
    ensures Contains(s, "rgb(")
    decreases |s|
  {
    if !RgbAt(s) {
      RgbMatchesContains(s[1..]);
    }
  }

  /** rgbRegex.FindStringSubmatch(s)[0]: the text of the leftmost match. */
  function FindRgb(s: string): (r: Option<string>)
    ensures r.Some? <==> RgbMatches(s)
    ensures r.Some? ==> HasPrefix(r.value, "rgb(") && Contains(s, r.value)
    decreases |s|
  {
    match RgbEnd(s)
    case Some(n) =>
      assert s[..n][..4] == s[..4];
      assert HasPrefix(s, s[..n]);
      Some(s[..n])
    case None => if |s| == 0 then None else FindRgb(s[1..])
  }

  /** The decimal text of a number, as Go prints it. */
  function Decimal(n: nat): (r: string)
    ensures |r| > 0 && forall i :: 0 <= i < |r| ==> '0' <= r[i] <= '9'
  {
    var d := (('0' as int) + n % 10) as char;
    if n < 10 then [d] else Decimal(n / 10) + [d]
  }

  /** The message of Go's run-time panic for an index past the end. */
  function IndexMessage(i: nat, length: nat): string {
    "runtime error: index out of range [" + Decimal(i) + "] with length " + Decimal(length)
  }

  /** Go's indexing of a slice: the element, or a run-time panic past the end. */
  function At(xs: seq<string>, i: nat): (r: Outcome<string>)
    ensures r.Ok? <==> i < |xs|
    ensures r.Ok? ==> r.value == xs[i]
    ensures r.Panic? ==> r.reason == IndexMessage(i, |xs|)
  {
    if i < |xs| then Ok(xs[i]) else Panic(IndexMessage(i, |xs|))
  }

  /** The message convertRGBToHex panics with. */
  lemma RgbPanicMessage()
    ensures IndexMessage(1, 1) == "runtime error: index out of range [1] with length 1"
  {
    assert Decimal(1) == "1";
  }

  /** convertRGBToHex: up to `rounds` rounds; a round that finds no match
      ends the loop, otherwise it reads the match's components at group
      indexes 1, 2 and 3 and replaces every occurrence of the match by the
      rendered color. */
  function ConvertRgb(render: (string, string, string) -> string, data: string, rounds: nat): (r: Outcome<string>)
    ensures r.Panic? <==> rounds > 0 && RgbMatches(data)
    ensures r.Panic? ==> r.reason == IndexMessage(1, 1)
    ensures r.Ok? ==> r.value == data
    decreases rounds, 0
  {
    if rounds == 0 then Ok(data)
    else match FindRgb(data)
      case None => Ok(data)
      case Some(m) => RgbRound(render, data, [m], rounds - 1)
  }

  /** The body of one round, given what FindStringSubmatch returned: the
      whole match then one entry per capture group. The pattern has no
      capture group, so the list holds the match alone and reading index 1
      panics. */
  function RgbRound(render: (string, string, string) -> string, data: string, found: seq<string>, rounds: nat)
    : (r: Outcome<string>)
    requires |found| > 0
    ensures |found| < 4 ==> r == Panic(IndexMessage(|found|, |found|))
    decreases rounds, 1
  {
    var red :- At(found, 1);
    var green :- At(found, 2);
    var blue :- At(found, 3);
    ConvertRgb(render, ReplaceAll(data, found[0], render(red, green, blue)), rounds)
  }

  /** A non-empty run of ASCII digits. */
  predicate Digits(ds: string) {
    |ds| > 0 && forall i :: 0 <= i < |ds| ==> '0' <= ds[i] <= '9'
  }

  /** What ` *` accepts: spaces only. */
  predicate Spaces(sp: string) {
    forall i :: 0 <= i < |sp| ==> sp[i] == ' '
  }

  /** A digit run stops at the first character that is not a digit. */
  lemma {:induction false} DigitRunStops(ds: string, t: string)
    requires forall i :: 0 <= i < |ds| ==> '0' <= ds[i] <= '9'
    requires |t| > 0 && !('0' <= t[0] <= '9')
    ensures DigitRun(ds + t) == |ds|
    decreases |ds|
  {
    if |ds| > 0 {
      assert (ds + t)[1..] == ds[1..] + t;
      DigitRunStops(ds[1..], t);
    } else {
      assert ds + t == t;
    }
  }

  /** `\d+` and its separator consume exactly the digits and the separator. */
  lemma NumberSep(ds: string, sep: char, rest: string)
    requires Digits(ds) && !('0' <= sep <= '9')
    ensures Number(ds + ([sep] + rest), sep) == Some(rest)
  {
    DigitRunStops(ds, [sep] + rest);
    assert (ds + ([sep] + rest))[|ds| + 1..] == rest;
  }

  /** ` *` before a number consumes every space of the run. */
  lemma {:induction false} SkipSpaceRun(sp: string, ds: string, rest: string)
    requires Spaces(sp) && Digits(ds)
    ensures SkipSpaces(sp + (ds + rest)) == ds + rest
    decreases |sp|
  {
    if |sp| > 0 {
      assert (sp + (ds + rest))[1..] == sp[1..] + (ds + rest);
      SkipSpaceRun(sp[1..], ds, rest);
    } else {
      assert sp + (ds + rest) == ds + rest;
    }
  }

  /** Every `rgb(R,<spaces>G,<spaces>B)` with decimal components, anywhere in
      the text, makes the stage panic. */
  lemma RgbPanics(render: (string, string, string) -> string, pre: string, r: string, g: string, b: string,
                  sp1: string, sp2: string, post: string, rounds: nat)
    requires Digits(r) && Digits(g) && Digits(b) && Spaces(sp1) && Spaces(sp2) && rounds > 0
    ensures ConvertRgb(render, pre + "rgb(" + r + "," + sp1 + g + "," + sp2 + b + ")" + post, rounds).Panic?
  {
    var s := RgbText(r, g, b, sp1, sp2, post);
    RgbTextFlat(pre, r, g, b, sp1, sp2, post);
    RgbTextMatches(r, g, b, sp1, sp2, post);
    assert (pre + s)[|pre|..] == s;
    RgbMatchesAt(pre + s, |pre|);
  }

  /** The text of an rgb notation followed by `post`, nested the way the
      pattern reads it. */
  function RgbText(r: string, g: string, b: string, sp1: string, sp2: string, post: string): string {
    "rgb(" + (r + ([','] + (sp1 + (g + ([','] + (sp2 + (b + ([')'] + post))))))))
  }

  lemma RgbTextFlat(pre: string, r: string, g: string, b: string, sp1: string, sp2: string, post: string)
    ensures pre + "rgb(" + r + "," + sp1 + g + "," + sp2 + b + ")" + post == pre + RgbText(r, g, b, sp1, sp2, post)
  {
  }

  /** The pattern matches at the start of an rgb notation. */
  lemma RgbTextMatches(r: string, g: string, b: string, sp1: string, sp2: string, post: string)
    requires Digits(r) && Digits(g) && Digits(b) && Spaces(sp1) && Spaces(sp2)
    ensures RgbAt(RgbText(r, g, b, sp1, sp2, post))
  {
    var tail3 := b + ([')'] + post);
    var tail2 := g + ([','] + (sp2 + tail3));
    var tail1 := r + ([','] + (sp1 + tail2));
    var s := "rgb(" + tail1;
    assert s[..4] == "rgb(";
    assert s[4..] == tail1;
    NumberSep(r, ',', sp1 + tail2);
    SkipSpaceRun(sp1, g, [','] + (sp2 + tail3));
    NumberSep(g, ',', sp2 + tail3);
    SkipSpaceRun(sp2, b, [')'] + post);
    NumberSep(b, ')', post);
  }

  // ---------------------------------------------------------------------
  // Short hex notation.

  /** Every character written twice. */
  function Doubled(s: string): (r: string)
    ensures |r| == 2 * |s|
    ensures forall i :: 0 <= i < |r| ==> r[i] == s[i / 2]
  {
    if |s| == 0 then [] else [s[0], s[0]] + Doubled(s[1..])
  }

  /** The short-hex step of eval: a `#`-prefixed string of 4 characters and,
      after that, one of 5 characters gets each character after the `#`
      doubled. Only the prefix and the length are checked. Lengths here count
      characters where the code counts bytes, so the two agree on ASCII text. */
  function ExpandShortHex(data: string): (r: string)
    ensures HasPrefix(data, "#") && (|data| == 4 || |data| == 5) ==> r == "#" + Doubled(data[1..])
    ensures !(HasPrefix(data, "#") && (|data| == 4 || |data| == 5)) ==> r == data
  {
    var d := if HasPrefix(data, "#") && |data| == 4
      then "#" + data[1..2] + data[1..2] + data[2..3] + data[2..3] + data[3..] + data[3..]
      else data;
    DoubledThree(data);
    DoubledFour(d);
    if HasPrefix(d, "#") && |d| == 5
    then "#" + d[1..2] + d[1..2] + d[2..3] + d[2..3] + d[3..4] + d[3..4] + d[4..] + d[4..]
    else d
  }

  /** The three-digit expansion doubles every digit and yields 7 characters. */
  lemma DoubledThree(data: string)
    ensures |data| == 4 ==>
      "#" + data[1..2] + data[1..2] + data[2..3] + data[2..3] + data[3..] + data[3..] == "#" + Doubled(data[1..])
  {
    if |data| == 4 {
      var t := data[1..];
      assert Doubled(t) == [t[0], t[0]] + ([t[1], t[1]] + ([t[2], t[2]] + Doubled(t[3..])));
    }
  }

  /** The four-digit expansion doubles every digit. */
  lemma DoubledFour(d: string)
    ensures |d| == 5 ==>
      "#" + d[1..2] + d[1..2] + d[2..3] + d[2..3] + d[3..4] + d[3..4] + d[4..] + d[4..] == "#" + Doubled(d[1..])
  {
    if |d| == 5 {
      var t := d[1..];
      assert Doubled(t) == [t[0], t[0]] + ([t[1], t[1]] + ([t[2], t[2]] + ([t[3], t[3]] + Doubled(t[4..]))));
    }
  }

  /** Expanding short hex twice is the same as expanding it once. */
  lemma ExpandShortHexIdempotent(data: string)
    ensures ExpandShortHex(ExpandShortHex(data)) == ExpandShortHex(data)
  {
  }

  // ---------------------------------------------------------------------
  // eval

  /** A stage that runs its replace loop only when its trigger text is
      present in the value. */
  function Gated(trigger: string, find: Finder, data: string): (r: string)
    ensures !Contains(data, trigger) ==> r == data
  {
    if Contains(data, trigger) then Rounds(find, data, MaxRounds) else data
  }

  /** Theme.eval: the stages in their fixed order, each run only when its
      trigger text is present; the variables are passed explicitly. */
  function Eval(lib: ColorLibrary, vars: map<string, string>, data: string): (r: Outcome<string>)
  {
    var d1 := if Contains(data, "var(") then ReplaceVariables(vars, data) else data;
    var d2 := Gated("color(", lib.color, d1);
    var d3 :- if Contains(d2, "rgb(") then ConvertRgb(lib.rgb, d2, MaxRounds) else Ok(d2);
    var d6 := Gated("hsla(", lib.hsla, Gated("hsl(", lib.hsl, Gated("rgba(", lib.rgba, d3)));
    Ok(ExpandShortHex(d6))
  }

  /** The trigger texts of the stages. */
  predicate HasTrigger(data: string) {
    Contains(data, "var(") || Contains(data, "color(") || Contains(data, "rgb(")
    || Contains(data, "rgba(") || Contains(data, "hsl(") || Contains(data, "hsla(")
  }

  /** A value that no stage touches: no trigger text, and not a short hex. */
  predicate Inert(data: string) {
    !HasTrigger(data) && !(HasPrefix(data, "#") && (|data| == 4 || |data| == 5))
  }

  /** A value without trigger texts only goes through the short-hex step. */
  lemma EvalPlain(lib: ColorLibrary, vars: map<string, string>, data: string)
    requires !HasTrigger(data)
    ensures Eval(lib, vars, data) == Ok(ExpandShortHex(data))
  {
  }

  /** When variable expansion yields a value without trigger texts, only the
      short-hex step follows it. */
  lemma EvalAfterVariables(lib: ColorLibrary, vars: map<string, string>, data: string)
    requires Contains(data, "var(") && !HasTrigger(ReplaceVariables(vars, data))
    ensures Eval(lib, vars, data) == Ok(ExpandShortHex(ReplaceVariables(vars, data)))
  {
  }

  /** Every trigger text ends with '(', so a value without '(' has none. */
  lemma NoParenNoTrigger(data: string)
    requires '(' !in data
    ensures !HasTrigger(data)
  {
    forall p | p in ["var(", "color(", "rgb(", "rgba(", "hsl(", "hsla("]
      ensures !Contains(data, p)
    {
      if Contains(data, p) {
        assert p[|p| - 1] == '(';
        ContainsHasChars(data, p, '(');
      }
    }
  }

  /** A value is returned unchanged when it has no trigger text and is not a
      `#`-prefixed string of length 4 or 5; in particular full 7- and 9-char
      hex colors pass through. */
  lemma EvalUnchanged(lib: ColorLibrary, vars: map<string, string>, data: string)
    requires Inert(data)
    ensures Eval(lib, vars, data) == Ok(data)
  {
    EvalPlain(lib, vars, data);
  }

  /** Evaluation ends in a panic only through the rgb stage: for a value with
      no variable reference and no `color(`, it panics exactly when rgbRegex
      matches. */
  lemma EvalPanicsIffRgb(lib: ColorLibrary, vars: map<string, string>, data: string)
    requires !Contains(data, "var(") && !Contains(data, "color(")
    ensures Eval(lib, vars, data).Panic? <==> RgbMatches(data)
  {
    if RgbMatches(data) {
      RgbMatchesContains(data);
    }
  }

  /** The stages that can panic are the ones behind `var(`, `color(` and
      `rgb(`: a value without these texts resolves without a panic. */
  predicate MayPanic(data: string) {
    Contains(data, "var(") || Contains(data, "color(") || Contains(data, "rgb(")
  }

  lemma EvalPanicSource(lib: ColorLibrary, vars: map<string, string>, data: string)
    ensures Eval(lib, vars, data).Panic? ==> MayPanic(data)
  {
  }

  /** `#fff` expands to `#ffffff`. */
  lemma ShortHexFff()
    ensures ExpandShortHex("#fff") == "#ffffff"
  {
    assert "#fff"[..1] == "#";
    assert "#fff"[1..] == "fff";
    assert Doubled("fff") == "ffffff";
  }

  lemma VarXIsFff(vars: map<string, string>)
    requires "X" in vars && vars["X"] == "#fff"
    ensures Contains("var(X)", "var(") && ReplaceVariables(vars, "var(X)") == "#fff"
    ensures !HasTrigger("#fff")
  {
    assert "var(X)"[..4] == "var(";
    assert "var(X)" == VarText("X");
    NoCloseNoVar("#fff");
    KnownVariable(vars, "X");
    NoParenNoTrigger("#fff");
  }

  /** `var(X)` with X defined as `#fff` resolves to `#ffffff`. */
  lemma EvalShortHexVariable(lib: ColorLibrary, vars: map<string, string>)
    requires "X" in vars && vars["X"] == "#fff"
    ensures Eval(lib, vars, "var(X)") == Ok("#ffffff")
  {
    VarXIsFff(vars);
    ShortHexFff();
    EvalAfterVariables(lib, vars, "var(X)");
  }

  lemma VarMissingIsPlaceholder(vars: map<string, string>, name: string)
    requires IsVarName(name) && name !in vars
    ensures Contains(VarText(name), "var(")
    ensures ReplaceVariables(vars, VarText(name)) == UnknownVar(name)
  {
    var t := VarText(name);
    var p := UnknownVar(name);
    VarAtText(name, "");
    assert t + "" == t;
    ReplaceAllWhole(t, p);
    UnknownVarFree(name);
    NoCloseNoVar(p);
    SingleRound(vars, t, name);
    assert t[..4] == "var(";
  }

  lemma PlaceholderPlain(name: string)
    requires '(' !in name
    ensures !HasTrigger(UnknownVar(name))
    ensures ExpandShortHex(UnknownVar(name)) == UnknownVar(name)
  {
    var p := UnknownVar(name);
    assert '(' !in p by {
      assert forall i :: 0 <= i < |p| ==> p[i] in "[UNKNOWN-VAR:" || p[i] in name || p[i] == ']';
    }
    NoParenNoTrigger(p);
    assert p[0] == '[';
  }

  /** A reference to a missing variable (whose name has no parenthesis)
      resolves to its placeholder; `var(missing)` gives
      `[UNKNOWN-VAR:missing]`. */
  lemma EvalMissingVariable(lib: ColorLibrary, vars: map<string, string>, name: string)
    requires IsVarName(name) && '(' !in name && name !in vars
    ensures Eval(lib, vars, VarText(name)) == Ok(UnknownVar(name))
  {
    VarMissingIsPlaceholder(vars, name);
    PlaceholderPlain(name);
    EvalAfterVariables(lib, vars, VarText(name));
  }
}
