/** XML escaping of keys and values in the converter's output. */
module Escaping {
  import opened GoStrings

  /** Replacing every occurrence of one character, character by character. */
  function Subst(s: string, c: char, e: string): string
    decreases |s|
  {
    if |s| == 0 then [] else (if s[0] == c then e else [s[0]]) + Subst(s[1..], c, e)
  }

  /** With a one-character pattern ReplaceAll is a per-character substitution. */
  lemma {:induction false} ReplaceCharIsSubst(s: string, c: char, e: string)
    ensures ReplaceAll(s, [c], e) == Subst(s, c, e)
    decreases |s|
  {
    if |s| > 0 {
      ReplaceCharIsSubst(s[1..], c, e);
      assert s[..1] == [s[0]];
      assert s[1..] == s[|[c]|..];
    }
  }

  lemma {:induction false} SubstAppend(a: string, b: string, c: char, e: string)
    ensures Subst(a + b, c, e) == Subst(a, c, e) + Subst(b, c, e)
    decreases |a|
  {
    if |a| == 0 {
      assert a + b == b;
    } else {
      assert (a + b)[1..] == a[1..] + b;
      SubstAppend(a[1..], b, c, e);
    }
  }

  lemma {:induction false} SubstAbsent(s: string, c: char, e: string)
    requires c !in s
    ensures Subst(s, c, e) == s
    decreases |s|
  {
    if |s| > 0 {
      assert s[0] in s;
      assert c !in s[1..] by {
        assert forall i :: 0 <= i < |s[1..]| ==> s[1..][i] == s[i + 1];
      }
      SubstAbsent(s[1..], c, e);
      assert s == [s[0]] + s[1..];
    }
  }

  lemma SubstOne(x: char, c: char, e: string)
    ensures Subst([x], c, e) == if x == c then e else [x]
  {
    assert [x][1..] == [];
  }

  // ---------------------------------------------------------------------
  // escape as written

  /** escape: the five replacements in the order the converter runs them,
      apostrophe and quote before ampersand. */
  function Escape(s: string): (r: string)
    ensures NoMarkup(r)
    ensures Plain(s) ==> r == s
  {
    EscapeIsCharwise(s);
    CharwiseNoMarkup(s);
    if Plain(s) then CharwisePlain(s); EscapeSteps(s) else EscapeSteps(s)
  }

  /** Every '&' escape leaves behind begins one of the entities it writes
      last; the apostrophe and quote entities never survive as such. */
  lemma EscapeEntities(s: string)
    ensures AmpersandsOpenEntities(Escape(s))
  {
    EscapeIsCharwise(s);
    CharwiseAmpersands(s);
  }

  function EscapeSteps(s: string): string {
    var a := ReplaceAll(s, "'", "&apos;");
    var b := ReplaceAll(a, "\"", "&quot;");
    var c := ReplaceAll(b, "&", "&amp;");
    var d := ReplaceAll(c, "<", "&lt;");
    ReplaceAll(d, ">", "&gt;")
  }

  /** None of the five characters escape handles. */
  predicate Plain(s: string) {
    '\'' !in s && '"' !in s && '&' !in s && '<' !in s && '>' !in s
  }

  /** No character that would break XML text or an attribute. */
  predicate NoMarkup(r: string) {
    '\'' !in r && '"' !in r && '<' !in r && '>' !in r
  }

  /** r starts with one of the entities escape produces last. */
  predicate EntityStart(r: string) {
    HasPrefix(r, "&amp;") || HasPrefix(r, "&lt;") || HasPrefix(r, "&gt;")
  }

  /** Every '&' of r begins `&amp;`, `&lt;` or `&gt;`. */
  predicate AmpersandsOpenEntities(r: string) {
    forall i :: 0 <= i < |r| && r[i] == '&' ==> EntityStart(r[i..])
  }

  /** What escape as written turns one character into. */
  function AsWritten(c: char): string {
    if c == '\'' then "&amp;apos;"
    else if c == '"' then "&amp;quot;"
    else if c == '&' then "&amp;"
    else if c == '<' then "&lt;"
    else if c == '>' then "&gt;"
    else [c]
  }

  /** escape as written, read character by character. */
  function Charwise(s: string): string
    decreases |s|
  {
    if |s| == 0 then [] else AsWritten(s[0]) + Charwise(s[1..])
  }

  const Amp := "&amp;"
  const Apos := "&apos;"
  const Quot := "&quot;"
  const Lt := "&lt;"
  const Gt := "&gt;"

  /** escape as written with ReplaceAll read as Subst. */
  function Steps(s: string): string {
    Subst(Subst(Subst(Subst(Subst(s, '\'', Apos), '"', Quot), '&', Amp), '<', Lt), '>', Gt)
  }

  lemma StepsAppend(a: string, b: string)
    ensures Steps(a + b) == Steps(a) + Steps(b)
  {
    var a1, b1 := Subst(a, '\'', Apos), Subst(b, '\'', Apos);
    SubstAppend(a, b, '\'', Apos);
    var a2, b2 := Subst(a1, '"', Quot), Subst(b1, '"', Quot);
    SubstAppend(a1, b1, '"', Quot);
    var a3, b3 := Subst(a2, '&', Amp), Subst(b2, '&', Amp);
    SubstAppend(a2, b2, '&', Amp);
    var a4, b4 := Subst(a3, '<', Lt), Subst(b3, '<', Lt);
    SubstAppend(a3, b3, '<', Lt);
    SubstAppend(a4, b4, '>', Gt);
  }

  /** The three last substitutions leave a string alone when it has no
      '&', '<' or '>'. */
  lemma LastStepsAbsent(s: string)
    requires '&' !in s && '<' !in s && '>' !in s
    ensures Subst(Subst(Subst(s, '&', Amp), '<', Lt), '>', Gt) == s
  {
    SubstAbsent(s, '&', Amp);
    SubstAbsent(s, '<', Lt);
    SubstAbsent(s, '>', Gt);
  }

  /** The '&' substitution on a string whose only '&' is its first character. */
  lemma AmpSubstLeading(t: string)
    requires '&' !in t
    ensures Subst("&" + t, '&', Amp) == Amp + t
  {
    SubstAppend("&", t, '&', Amp);
    SubstOne('&', '&', Amp);
    SubstAbsent(t, '&', Amp);
  }

  lemma StepsApos(x: char)
    requires x == '\''
    ensures Steps([x]) == "&amp;apos;"
  {
    StepsAposFirst(x);
    LastTwoAbsent("&amp;apos;");
  }

  lemma StepsAposFirst(x: char)
    requires x == '\''
    ensures Subst(Subst(Subst([x], '\'', Apos), '"', Quot), '&', Amp) == "&amp;apos;"
  {
    SubstOne(x, '\'', Apos);
    SubstAbsent(Apos, '"', Quot);
    AposAmp();
  }

  lemma AposAmp()
    ensures Subst(Apos, '&', Amp) == "&amp;apos;"
  {
    assert Apos == "&" + "apos;";
    AmpSubstLeading("apos;");
  }

  lemma QuotAmp()
    ensures Subst(Quot, '&', Amp) == "&amp;quot;"
  {
    assert Quot == "&" + "quot;";
    AmpSubstLeading("quot;");
  }

  lemma StepsQuot(x: char)
    requires x == '"'
    ensures Steps([x]) == "&amp;quot;"
  {
    StepsQuotFirst(x);
    LastTwoAbsent("&amp;quot;");
  }

  lemma StepsQuotFirst(x: char)
    requires x == '"'
    ensures Subst(Subst(Subst([x], '\'', Apos), '"', Quot), '&', Amp) == "&amp;quot;"
  {
    SubstOne(x, '\'', Apos);
    SubstOne(x, '"', Quot);
    QuotAmp();
  }

  lemma LastTwoAbsent(s: string)
    requires '<' !in s && '>' !in s
    ensures Subst(Subst(s, '<', Lt), '>', Gt) == s
  {
    SubstAbsent(s, '<', Lt);
    SubstAbsent(s, '>', Gt);
  }

  /** The substitutions of the characters in `others` leave a one-character
      string of a different character alone. */
  lemma StepsPlainChar(x: char)
    requires x != '\'' && x != '"'
    ensures Subst(Subst([x], '\'', Apos), '"', Quot) == [x]
  {
    SubstOne(x, '\'', Apos);
    SubstOne(x, '"', Quot);
  }

  lemma StepsChar(x: char)
    ensures Steps([x]) == AsWritten(x)
  {
    if x == '\'' {
      StepsApos(x);
    } else if x == '"' {
      StepsQuot(x);
    } else {
      StepsPlainChar(x);
      var c := Subst([x], '&', Amp);
      SubstOne(x, '&', Amp);
      if x == '&' {
        assert c == Amp;
        LastTwoAbsent(Amp);
      } else {
        var d := Subst(c, '<', Lt);
        SubstOne(x, '<', Lt);
        if x == '<' {
          assert d == Lt;
          SubstAbsent(Lt, '>', Gt);
        } else {
          SubstOne(x, '>', Gt);
        }
      }
    }
  }

  lemma {:induction false} StepsIsCharwise(s: string)
    ensures Steps(s) == Charwise(s)
    decreases |s|
  {
    if |s| == 0 {
      assert Steps(s) == [];
    } else {
      assert s == [s[0]] + s[1..];
      StepsAppend([s[0]], s[1..]);
      StepsChar(s[0]);
      StepsIsCharwise(s[1..]);
    }
  }

  /** escape as written replaces each character independently of the others:
      apostrophe by `&amp;apos;`, quote by `&amp;quot;`, ampersand by `&amp;`,
      '<' by `&lt;`, '>' by `&gt;`, and keeps every other character. */
  lemma EscapeIsCharwise(s: string)
    ensures EscapeSteps(s) == Charwise(s)
  {
    var a := ReplaceAll(s, "'", "&apos;");
    ReplaceCharIsSubst(s, '\'', Apos);
    var b := ReplaceAll(a, "\"", "&quot;");
    ReplaceCharIsSubst(a, '"', Quot);
    var c := ReplaceAll(b, "&", "&amp;");
    ReplaceCharIsSubst(b, '&', Amp);
    var d := ReplaceAll(c, "<", "&lt;");
    ReplaceCharIsSubst(c, '<', Lt);
    ReplaceCharIsSubst(d, '>', Gt);
    StepsIsCharwise(s);
  }

  lemma {:induction false} CharwiseNoMarkup(s: string)
    ensures NoMarkup(Charwise(s))
    decreases |s|
  {
    if |s| > 0 {
      CharwiseNoMarkup(s[1..]);
      AsWrittenNoMarkup(s[0]);
      NoMarkupAppend(AsWritten(s[0]), Charwise(s[1..]));
    }
  }

  lemma AsWrittenNoMarkup(x: char)
    ensures NoMarkup(AsWritten(x))
  {
  }

  lemma NoMarkupAppend(a: string, b: string)
    requires NoMarkup(a) && NoMarkup(b)
    ensures NoMarkup(a + b)
  {
  }

  lemma HasPrefixAppend(x: string, y: string, p: string)
    requires HasPrefix(x, p)
    ensures HasPrefix(x + y, p)
  {
    assert (x + y)[..|p|] == x[..|p|];
  }

  lemma AmpersandsAppend(a: string, b: string)
    requires AmpersandsOpenEntities(a) && AmpersandsOpenEntities(b)
    ensures AmpersandsOpenEntities(a + b)
  {
    forall i | 0 <= i < |a + b| && (a + b)[i] == '&'
      ensures EntityStart((a + b)[i..])
    {
      if i < |a| {
        assert a[i] == '&';
        assert (a + b)[i..] == a[i..] + b;
        if HasPrefix(a[i..], "&amp;") {
          HasPrefixAppend(a[i..], b, "&amp;");
        } else if HasPrefix(a[i..], "&lt;") {
          HasPrefixAppend(a[i..], b, "&lt;");
        } else {
          HasPrefixAppend(a[i..], b, "&gt;");
        }
      } else {
        assert b[i - |a|] == '&';
        assert (a + b)[i..] == b[i - |a|..];
      }
    }
  }

  /** A string whose only '&' is its first character, which opens an entity. */
  lemma AmpersandsLeading(t: string)
    requires '&' !in t && EntityStart("&" + t)
    ensures AmpersandsOpenEntities("&" + t)
  {
    forall i | 0 < i < |"&" + t|
      ensures ("&" + t)[i] != '&'
    {
      assert ("&" + t)[i] == t[i - 1];
    }
  }

  lemma AsWrittenAmpersands(x: char)
    ensures AmpersandsOpenEntities(AsWritten(x))
  {
    if x == '\'' {
      assert "&amp;apos;" == "&" + "amp;apos;";
      assert "&amp;apos;"[..5] == "&amp;";
      AmpersandsLeading("amp;apos;");
    } else if x == '"' {
      assert "&amp;quot;" == "&" + "amp;quot;";
      assert "&amp;quot;"[..5] == "&amp;";
      AmpersandsLeading("amp;quot;");
    } else if x == '&' {
      assert "&amp;" == "&" + "amp;";
      assert "&amp;"[..5] == "&amp;";
      AmpersandsLeading("amp;");
    } else if x == '<' {
      assert "&lt;" == "&" + "lt;";
      assert "&lt;"[..4] == "&lt;";
      AmpersandsLeading("lt;");
    } else if x == '>' {
      assert "&gt;" == "&" + "gt;";
      assert "&gt;"[..4] == "&gt;";
      AmpersandsLeading("gt;");
    }
  }

  lemma {:induction false} CharwiseAmpersands(s: string)
    ensures AmpersandsOpenEntities(Charwise(s))
    decreases |s|
  {
    if |s| > 0 {
      CharwiseAmpersands(s[1..]);
      AsWrittenAmpersands(s[0]);
      AmpersandsAppend(AsWritten(s[0]), Charwise(s[1..]));
    }
  }

  lemma {:induction false} CharwisePlain(s: string)
    requires Plain(s)
    ensures Charwise(s) == s
    decreases |s|
  {
    if |s| > 0 {
      assert s[0] in s;
      assert Plain(s[1..]) by {
        assert forall c :: c in s[1..] ==> c in s;
      }
      CharwisePlain(s[1..]);
      assert s == [s[0]] + s[1..];
    }
  }

  /** Because apostrophe and quote are replaced before ampersand, the '&' of
      their entities is escaped again. */
  lemma DoubleEscapes()
    ensures Escape("'") == "&amp;apos;"
    ensures Escape("\"") == "&amp;quot;"
  {
    EscapeIsCharwise("'");
    EscapeIsCharwise("\"");
    CharwiseOne('\'');
    CharwiseOne('"');
  }

  lemma CharwiseOne(x: char)
    ensures Charwise([x]) == AsWritten(x)
  {
    assert [x][1..] == [];
  }

  /** An apostrophe between plain text, as in a name like O'Brien, comes out
      as `&amp;apos;` while the text around it is kept. */
  lemma DoubleEscapesInName(p: string, q: string)
    requires Plain(p) && Plain(q)
    ensures Escape(p + "'" + q) == p + "&amp;apos;" + q
  {
    var s := p + "'" + q;
    var e := "&amp;apos;";
    EscapeIsCharwise(s);
    assert s == p + ("'" + q);
    CharwiseAppend(p, "'" + q);
    CharwiseAppend("'", q);
    CharwisePlain(p);
    CharwisePlain(q);
    CharwiseOne('\'');
    assert Charwise("'") == e;
    assert Charwise("'" + q) == e + q;
    assert Charwise(s) == p + (e + q);
    assert p + (e + q) == p + e + q;
  }

  lemma {:induction false} CharwiseAppend(a: string, b: string)
    ensures Charwise(a + b) == Charwise(a) + Charwise(b)
    decreases |a|
  {
    if |a| == 0 {
      assert a + b == b;
    } else {
      assert (a + b)[1..] == a[1..] + b;
      CharwiseAppend(a[1..], b);
    }
  }

  // ---------------------------------------------------------------------
  // escape with ampersand first

  /** escape with the ampersand replaced first, so no entity is escaped twice. */
  function EscapeAmpFirst(s: string): (r: string)
    ensures NoMarkup(r)
    ensures Plain(s) ==> r == s
  {
    EscapeAmpFirstIsCharwise(s);
    FixedNoMarkup(s);
    if Plain(s) then FixedPlain(s); AmpFirstSteps(s) else AmpFirstSteps(s)
  }

  /** Decoding the entities gives back exactly the escaped text. */
  lemma EscapeAmpFirstReversible(s: string)
    ensures Unescape(EscapeAmpFirst(s)) == s
  {
    EscapeAmpFirstIsCharwise(s);
    UnescapeFixed(s);
  }

  function AmpFirstSteps(s: string): string {
    var a := ReplaceAll(s, "&", "&amp;");
    var b := ReplaceAll(a, "'", "&apos;");
    var c := ReplaceAll(b, "\"", "&quot;");
    var d := ReplaceAll(c, "<", "&lt;");
    ReplaceAll(d, ">", "&gt;")
  }

  /** The entity each special character becomes. */
  function Entity(c: char): string {
    if c == '&' then "&amp;"
    else if c == '\'' then "&apos;"
    else if c == '"' then "&quot;"
    else if c == '<' then "&lt;"
    else if c == '>' then "&gt;"
    else [c]
  }

  function Fixed(s: string): string
    decreases |s|
  {
    if |s| == 0 then [] else Entity(s[0]) + Fixed(s[1..])
  }

  function FixedSteps(s: string): string {
    Subst(Subst(Subst(Subst(Subst(s, '&', Amp), '\'', Apos), '"', Quot), '<', Lt), '>', Gt)
  }

  lemma FixedStepsAppend(a: string, b: string)
    ensures FixedSteps(a + b) == FixedSteps(a) + FixedSteps(b)
  {
    var a1, b1 := Subst(a, '&', Amp), Subst(b, '&', Amp);
    SubstAppend(a, b, '&', Amp);
    var a2, b2 := Subst(a1, '\'', Apos), Subst(b1, '\'', Apos);
    SubstAppend(a1, b1, '\'', Apos);
    var a3, b3 := Subst(a2, '"', Quot), Subst(b2, '"', Quot);
    SubstAppend(a2, b2, '"', Quot);
    var a4, b4 := Subst(a3, '<', Lt), Subst(b3, '<', Lt);
    SubstAppend(a3, b3, '<', Lt);
    SubstAppend(a4, b4, '>', Gt);
  }

  /** Substitutions of characters absent from s leave it alone. */
  lemma LastFourAbsent(s: string)
    requires '\'' !in s && '"' !in s && '<' !in s && '>' !in s
    ensures Subst(Subst(Subst(Subst(s, '\'', Apos), '"', Quot), '<', Lt), '>', Gt) == s
  {
    SubstAbsent(s, '\'', Apos);
    SubstAbsent(s, '"', Quot);
    SubstAbsent(s, '<', Lt);
    SubstAbsent(s, '>', Gt);
  }

  lemma FixedAmp()
    ensures FixedSteps("&") == Amp
  {
    SubstOne('&', '&', Amp);
    LastFourAbsent(Amp);
  }

  lemma FixedApos()
    ensures FixedSteps("'") == Apos
  {
    var a := Subst("'", '&', Amp);
    SubstOne('\'', '&', Amp);
    assert a == "'";
    FixedAposTail();
  }

  lemma FixedAposTail()
    ensures Subst(Subst(Subst(Subst("'", '\'', Apos), '"', Quot), '<', Lt), '>', Gt) == Apos
  {
    var b := Subst("'", '\'', Apos);
    SubstOne('\'', '\'', Apos);
    assert b == Apos;
    var c := Subst(b, '"', Quot);
    SubstAbsent(Apos, '"', Quot);
    assert c == Apos;
    LastTwoAbsent(Apos);
  }

  lemma FixedQuot()
    ensures FixedSteps("\"") == Quot
  {
    var a := Subst("\"", '&', Amp);
    SubstOne('"', '&', Amp);
    assert a == "\"";
    var b := Subst(a, '\'', Apos);
    SubstOne('"', '\'', Apos);
    assert b == "\"";
    var c := Subst(b, '"', Quot);
    SubstOne('"', '"', Quot);
    assert c == Quot;
    LastTwoAbsent(Quot);
  }

  lemma FixedOther(x: char)
    requires x != '&' && x != '\'' && x != '"'
    ensures FixedSteps([x]) == Entity(x)
  {
    SubstOne(x, '&', Amp);
    SubstOne(x, '\'', Apos);
    SubstOne(x, '"', Quot);
    var d := Subst([x], '<', Lt);
    SubstOne(x, '<', Lt);
    if x == '<' {
      assert d == Lt;
      SubstAbsent(Lt, '>', Gt);
    } else {
      SubstOne(x, '>', Gt);
    }
  }

  lemma FixedStepsChar(x: char)
    ensures FixedSteps([x]) == Entity(x)
  {
    if x == '&' {
      assert [x] == "&";
      FixedAmp();
    } else if x == '\'' {
      assert [x] == "'";
      FixedApos();
    } else if x == '"' {
      assert [x] == "\"";
      FixedQuot();
    } else {
      FixedOther(x);
    }
  }

  lemma {:induction false} FixedStepsIsFixed(s: string)
    ensures FixedSteps(s) == Fixed(s)
    decreases |s|
  {
    if |s| == 0 {
      assert FixedSteps(s) == [];
    } else {
      assert s == [s[0]] + s[1..];
      FixedStepsAppend([s[0]], s[1..]);
      FixedStepsChar(s[0]);
      FixedStepsIsFixed(s[1..]);
    }
  }

  lemma EscapeAmpFirstIsCharwise(s: string)
    ensures AmpFirstSteps(s) == Fixed(s)
  {
    var a := ReplaceAll(s, "&", "&amp;");
    ReplaceCharIsSubst(s, '&', Amp);
    var b := ReplaceAll(a, "'", "&apos;");
    ReplaceCharIsSubst(a, '\'', Apos);
    var c := ReplaceAll(b, "\"", "&quot;");
    ReplaceCharIsSubst(b, '"', Quot);
    var d := ReplaceAll(c, "<", "&lt;");
    ReplaceCharIsSubst(c, '<', Lt);
    ReplaceCharIsSubst(d, '>', Gt);
    FixedStepsIsFixed(s);
  }

  lemma {:induction false} FixedPlain(s: string)
    requires Plain(s)
    ensures Fixed(s) == s
    decreases |s|
  {
    if |s| > 0 {
      PlainSplit(s);
      FixedPlain(s[1..]);
      assert Fixed(s) == Entity(s[0]) + Fixed(s[1..]);
      assert s == [s[0]] + s[1..];
    }
  }

  /** The first character of a plain string is its own entity, and the rest
      is plain. */
  lemma PlainSplit(s: string)
    requires Plain(s) && |s| > 0
    ensures Entity(s[0]) == [s[0]]
    ensures Plain(s[1..])
  {
    assert s[0] in s;
    assert forall c :: c in s[1..] ==> c in s;
  }

  lemma {:induction false} FixedNoMarkup(s: string)
    ensures NoMarkup(Fixed(s))
    decreases |s|
  {
    if |s| > 0 {
      FixedNoMarkup(s[1..]);
      EntityNoMarkup(s[0]);
      NoMarkupAppend(Entity(s[0]), Fixed(s[1..]));
    }
  }

  lemma EntityNoMarkup(x: char)
    ensures NoMarkup(Entity(x))
  {
  }

  /** Decoding of the five predefined XML entities, left to right. */
  function Unescape(s: string): string
    decreases |s|
  {
    if |s| == 0 then []
    else if s[0] != '&' then [s[0]] + Unescape(s[1..])
    else if HasPrefix(s, "&amp;") then "&" + Unescape(s[5..])
    else if HasPrefix(s, "&apos;") then "'" + Unescape(s[6..])
    else if HasPrefix(s, "&quot;") then "\"" + Unescape(s[6..])
    else if HasPrefix(s, "&lt;") then "<" + Unescape(s[4..])
    else if HasPrefix(s, "&gt;") then ">" + Unescape(s[4..])
    else [s[0]] + Unescape(s[1..])
  }

  lemma UnescapeEntity(x: char, rest: string)
    ensures Unescape(Entity(x) + rest) == [x] + Unescape(rest)
  {
    if x == '&' {
      UnescapeAmp(rest);
    } else if x == '\'' {
      UnescapeAposEntity(rest);
    } else if x == '"' {
      UnescapeQuot(rest);
    } else if x == '<' {
      UnescapeLt(rest);
    } else if x == '>' {
      UnescapeGt(rest);
    } else {
      var s := [x] + rest;
      assert s[1..] == rest;
    }
  }

  lemma UnescapeAmp(rest: string)
    ensures Unescape("&amp;" + rest) == "&" + Unescape(rest)
  {
    var s := "&amp;" + rest;
    assert s[..5] == "&amp;";
    assert s[5..] == rest;
  }

  lemma UnescapeAposEntity(rest: string)
    ensures Unescape("&apos;" + rest) == "'" + Unescape(rest)
  {
    var s := "&apos;" + rest;
    assert s[..6] == "&apos;";
    assert s[2] != "&amp;"[2];
    assert s[6..] == rest;
  }

  lemma UnescapeQuot(rest: string)
    ensures Unescape("&quot;" + rest) == "\"" + Unescape(rest)
  {
    var s := "&quot;" + rest;
    assert s[..6] == "&quot;";
    assert s[1] != "&amp;"[1] && s[1] != "&apos;"[1];
    assert s[6..] == rest;
  }

  lemma UnescapeLt(rest: string)
    ensures Unescape("&lt;" + rest) == "<" + Unescape(rest)
  {
    var s := "&lt;" + rest;
    assert s[..4] == "&lt;";
    assert s[1] != "&amp;"[1] && s[1] != "&apos;"[1] && s[1] != "&quot;"[1];
    assert s[4..] == rest;
  }

  lemma UnescapeGt(rest: string)
    ensures Unescape("&gt;" + rest) == ">" + Unescape(rest)
  {
    var s := "&gt;" + rest;
    assert s[..4] == "&gt;";
    assert s[1] != "&amp;"[1] && s[1] != "&apos;"[1] && s[1] != "&quot;"[1] && s[1] != "&lt;"[1];
    assert s[4..] == rest;
  }

  lemma {:induction false} UnescapeFixed(s: string)
    ensures Unescape(Fixed(s)) == s
    decreases |s|
  {
    if |s| > 0 {
      UnescapeEntity(s[0], Fixed(s[1..]));
      UnescapeFixed(s[1..]);
      assert s == [s[0]] + s[1..];
    }
  }

  /** Text without '&' holds no entity and decodes to itself. */
  lemma {:induction false} UnescapeNoAmp(s: string)
    requires '&' !in s
    ensures Unescape(s) == s
    decreases |s|
  {
    if |s| > 0 {
      assert s[0] in s;
      assert '&' !in s[1..] by {
        assert forall c :: c in s[1..] ==> c in s;
      }
      UnescapeNoAmp(s[1..]);
      assert s == [s[0]] + s[1..];
    }
  }

  lemma UnescapeApos()
    ensures Unescape("apos;") == "apos;"
  {
    assert forall i :: 0 <= i < |"apos;"| ==> "apos;"[i] != '&';
    UnescapeNoAmp("apos;");
  }

  // ---------------------------------------------------------------------
  // where the two escapes differ

  /** No apostrophe and no quote: the characters escape as written gets
      wrong. */
  predicate QuoteFree(s: string) {
    '\'' !in s && '"' !in s
  }

  /** The number of apostrophes and quotes in s. */
  function Quotes(s: string): nat
    decreases |s|
  {
    if |s| == 0 then 0 else (if s[0] == '\'' || s[0] == '"' then 1 else 0) + Quotes(s[1..])
  }

  lemma {:induction false} QuotesZero(s: string)
    ensures Quotes(s) == 0 <==> QuoteFree(s)
    decreases |s|
  {
    if |s| > 0 {
      QuotesZero(s[1..]);
      assert s == [s[0]] + s[1..];
      assert forall c :: c in s <==> c == s[0] || c in s[1..];
    }
  }

  /** Each apostrophe or quote costs escape as written four characters more
      than the corrected escape; every other character is escaped alike. */
  lemma {:induction false} CharwiseLength(s: string)
    ensures |Charwise(s)| == |Fixed(s)| + 4 * Quotes(s)
    ensures Quotes(s) == 0 ==> Charwise(s) == Fixed(s)
    decreases |s|
  {
    if |s| > 0 {
      CharwiseLength(s[1..]);
    }
  }

  /** The two escapes give the same text exactly when the input has no
      apostrophe and no quote. */
  lemma EscapesAgree(s: string)
    ensures Escape(s) == EscapeAmpFirst(s) <==> QuoteFree(s)
  {
    EscapeIsCharwise(s);
    EscapeAmpFirstIsCharwise(s);
    CharwiseLength(s);
    QuotesZero(s);
  }

  /** A text without '&' is decoded character for character. */
  lemma {:induction false} UnescapePlainPrefix(w: string, rest: string)
    requires '&' !in w
    ensures Unescape(w + rest) == w + Unescape(rest)
    decreases |w|
  {
    if |w| > 0 {
      assert w[0] in w;
      assert '&' !in w[1..] by {
        assert forall c :: c in w[1..] ==> c in w;
      }
      var s := w + rest;
      assert s[0] == w[0] && s[1..] == w[1..] + rest;
      assert Unescape(s) == [w[0]] + Unescape(s[1..]);
      UnescapePlainPrefix(w[1..], rest);
      assert [w[0]] + (w[1..] + Unescape(rest)) == w + Unescape(rest) by {
        assert w == [w[0]] + w[1..];
      }
    } else {
      assert w + rest == rest;
    }
  }

  /** What a reader makes of escape as written, character by character: an
      apostrophe reads as the text `&apos;`, a quote as `&quot;`. */
  function Misread(c: char): string {
    if c == '\'' then Apos else if c == '"' then Quot else [c]
  }

  lemma UnescapeAsWritten(c: char, rest: string)
    ensures Unescape(AsWritten(c) + rest) == Misread(c) + Unescape(rest)
  {
    if c == '\'' {
      assert AsWritten(c) + rest == "&amp;" + ("apos;" + rest);
      UnescapeAmp("apos;" + rest);
      assert forall i :: 0 <= i < |"apos;"| ==> "apos;"[i] != '&';
      UnescapePlainPrefix("apos;", rest);
    } else if c == '"' {
      assert AsWritten(c) + rest == "&amp;" + ("quot;" + rest);
      UnescapeAmp("quot;" + rest);
      assert forall i :: 0 <= i < |"quot;"| ==> "quot;"[i] != '&';
      UnescapePlainPrefix("quot;", rest);
    } else {
      assert AsWritten(c) == Entity(c);
      UnescapeEntity(c, rest);
    }
  }

  /** Each apostrophe or quote reads back five characters longer. */
  lemma {:induction false} UnescapeCharwiseLength(s: string)
    ensures |Unescape(Charwise(s))| == |s| + 5 * Quotes(s)
    ensures Quotes(s) == 0 ==> Unescape(Charwise(s)) == s
    decreases |s|
  {
    if |s| > 0 {
      UnescapeAsWritten(s[0], Charwise(s[1..]));
      UnescapeCharwiseLength(s[1..]);
      assert s == [s[0]] + s[1..];
    }
  }

  /** A reader gets back what escape as written was given exactly when it had
      no apostrophe and no quote. */
  lemma EscapeReversibleIff(s: string)
    ensures Unescape(Escape(s)) == s <==> QuoteFree(s)
  {
    EscapeIsCharwise(s);
    UnescapeCharwiseLength(s);
    QuotesZero(s);
  }

  /** escape as written does not survive decoding: an apostrophe comes back
      as the text `&apos;`. */
  lemma EscapeNotReversible()
    ensures Unescape(Escape("'")) == "&apos;"
    ensures Unescape(Escape("'")) != "'"
  {
    DoubleEscapes();
    UnescapeAmpApos();
  }

  lemma UnescapeAmpApos()
    ensures Unescape("&amp;apos;") == "&apos;"
  {
    var s := "&amp;apos;";
    assert s[..5] == "&amp;";
    assert s[5..] == "apos;";
    UnescapeApos();
    assert Unescape(s) == "&" + "apos;";
  }
}
