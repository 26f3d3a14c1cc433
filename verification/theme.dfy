/** The parsed theme and its getters. Rules and the globals map read the
    theme's variables through an explicit argument instead of a back
    reference to the theme. */
module Themes {
  import opened Results
  import opened Globals
  import opened Resolver

  /** One scope rule; every field is raw text, empty when absent. */
  datatype Rule = Rule(
    name: string,
    scope: string,
    fontStyle: string,
    foreground: string,
    background: string,
    selectionForeground: string)

  /** A parsed .sublime-color-scheme document. */
  datatype Theme = Theme(
    name: string,
    author: string,
    variables: map<string, string>,
    globals: OrderedMap,
    rules: seq<Rule>)

  /** An empty raw value has nothing to resolve. */
  lemma EvalEmpty(lib: ColorLibrary, vars: map<string, string>)
    ensures Eval(lib, vars, "") == Ok("")
  {
    NoParenNoTrigger("");
  }

  /** Map.Get: the resolved value of a global; a key without an entry reads
      as the empty string, as a missing key of a Go map does. */
  function Get(m: OrderedMap, lib: ColorLibrary, vars: map<string, string>, key: string): (r: Outcome<string>)
    ensures key !in m.data ==> r == Ok("")
    ensures key in m.data && Inert(m.data[key]) ==> r == Ok(m.data[key])
  {
    EvalEmpty(lib, vars);
    if key in m.data then
      var raw := m.data[key];
      assert Inert(raw) ==> Eval(lib, vars, raw) == Ok(raw) by {
        if Inert(raw) {
          EvalUnchanged(lib, vars, raw);
        }
      }
      Eval(lib, vars, raw)
    else Eval(lib, vars, "")
  }

  /** The rule getters resolve one raw field each: an empty field resolves
      to the empty string, a field that no stage touches is returned as it
      is, and only a field with a `var(`, `color(` or `rgb(` text can
      panic. */
  function GetFontStyle(r: Rule, lib: ColorLibrary, vars: map<string, string>): (v: Outcome<string>)
    ensures r.fontStyle == "" ==> v == Ok("")
    ensures Inert(r.fontStyle) ==> v == Ok(r.fontStyle)
    ensures v.Panic? ==> MayPanic(r.fontStyle)
  {
    Resolve(lib, vars, r.fontStyle)
  }

  function GetForeground(r: Rule, lib: ColorLibrary, vars: map<string, string>): (v: Outcome<string>)
    ensures r.foreground == "" ==> v == Ok("")
    ensures Inert(r.foreground) ==> v == Ok(r.foreground)
    ensures v.Panic? ==> MayPanic(r.foreground)
  {
    Resolve(lib, vars, r.foreground)
  }

  function GetBackground(r: Rule, lib: ColorLibrary, vars: map<string, string>): (v: Outcome<string>)
    ensures r.background == "" ==> v == Ok("")
    ensures Inert(r.background) ==> v == Ok(r.background)
    ensures v.Panic? ==> MayPanic(r.background)
  {
    Resolve(lib, vars, r.background)
  }

  function GetSelectionForeground(r: Rule, lib: ColorLibrary, vars: map<string, string>): (v: Outcome<string>)
    ensures r.selectionForeground == "" ==> v == Ok("")
    ensures Inert(r.selectionForeground) ==> v == Ok(r.selectionForeground)
    ensures v.Panic? ==> MayPanic(r.selectionForeground)
  {
    Resolve(lib, vars, r.selectionForeground)
  }

  /** eval on one raw value, with the facts every getter passes on. */
  function Resolve(lib: ColorLibrary, vars: map<string, string>, raw: string): (v: Outcome<string>)
    ensures raw == "" ==> v == Ok("")
    ensures Inert(raw) ==> v == Ok(raw)
    ensures v.Panic? ==> MayPanic(raw)
  {
    EvalEmpty(lib, vars);
    EvalPanicSource(lib, vars, raw);
    if Inert(raw) then
      EvalUnchanged(lib, vars, raw);
      Eval(lib, vars, raw)
    else Eval(lib, vars, raw)
  }

  /** A rule field and a global with the same raw text resolve alike. In
      the source each rule and the globals map hold a back-pointer to their
      theme and evaluate through it; the model passes that one theme's
      variables to both getters instead, so the agreement holds by
      construction and this lemma records that the replacement is sound. */
  lemma RuleAgreesWithGlobals(r: Rule, m: OrderedMap, lib: ColorLibrary, vars: map<string, string>, key: string)
    requires key in m.data && m.data[key] == r.foreground
    ensures GetForeground(r, lib, vars) == Get(m, lib, vars, key)
  {
  }
}
