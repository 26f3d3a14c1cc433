/** The converter: writes a parsed theme as a TextMate property list. The
    writers build the lines of the document; Convert renders them after the
    fixed preamble. The UUID the converter generates is a parameter, and a
    panic while resolving a value unwinds through every writer. */
module Converter {
  import opened Results
  import opened GoStrings
  import opened Globals
  import opened Resolver
  import opened Escaping
  import opened Themes
  import opened Plist

  // ---------------------------------------------------------------------
  // the single writers

  /** The escape writeNode applies to a key and to a value. Convert uses
      converter.go's escape as written; ConvertFixed uses the corrected one. */
  type Escaper = string -> string

  /** Writing a text as it is, without escaping: what a reader should get
      back. */
  const Verbatim: Escaper := s => s

  /** writeNode: a key line and a string line, both escaped. */
  function Node(esc: Escaper, indent: nat, key: string, value: string): (r: seq<Line>)
    ensures Entries(r) == [Entry(indent, esc(key), esc(value))]
    ensures EndsWhole(r)
    ensures forall st: seq<Tag> | |st| == indent :: Level(r, st)
    ensures |r| == 2 && Paired(r) && Flat(r)
  {
    var r := [KeyLine(indent, esc(key)), StringLine(indent, esc(value))];
    assert r[2..] == [];
    PairedPair(indent, esc(key), esc(value));
    forall st: seq<Tag> | |st| == indent ensures Level(r, st) {
      LevelPair(esc(key), esc(value), st);
    }
    r
  }

  /** The fixed keys and the colour space name the converter writes. */
  const NameKey := "name"
  const AuthorKey := "author"
  const ColorSpaceKey := "colorSpaceName"
  const UuidKey := "uuid"
  const SRgb := "sRGB"
  const ScopeKey := "scope"
  const SettingsKey := "settings"
  const FontStyleKey := "fontStyle"
  const ForegroundKey := "foreground"
  const BackgroundKey := "background"
  const SelectionForegroundKey := "selectionForeground"

  /** The lines writeHeader writes before the property list element, as
      plain text. */
  const XmlDeclaration := "<?xml version=\"1.0\" encoding=\"UTF-8\"?>"
  const Doctype := "<!DOCTYPE plist PUBLIC \"-//Apple Computer//DTD PLIST 1.0//EN\" \"http://www.apple.com/DTDs/PropertyList-1.0.dtd\">"
  const Credit := "  This theme converted from sublime-color-scheme by detheme (https://kaos.sh/detheme)"
  const Preamble: seq<string> := [XmlDeclaration, Doctype, "", "<!--", Credit, "-->", ""]

  /** The escape leaves the fixed words the converter writes alone. */
  predicate KeepsKeys(esc: Escaper) {
    esc(NameKey) == NameKey && esc(AuthorKey) == AuthorKey && esc(ColorSpaceKey) == ColorSpaceKey
    && esc(UuidKey) == UuidKey && esc(SRgb) == SRgb && esc(ScopeKey) == ScopeKey
    && esc(FontStyleKey) == FontStyleKey && esc(ForegroundKey) == ForegroundKey
    && esc(BackgroundKey) == BackgroundKey && esc(SelectionForegroundKey) == SelectionForegroundKey
  }

  /** Letters only. */
  predicate Word(s: string) {
    forall i :: 0 <= i < |s| ==> 'a' <= s[i] <= 'z' || 'A' <= s[i] <= 'Z'
  }

  /** A word has none of the characters the escapes replace. */
  lemma WordPlain(s: string)
    requires Word(s)
    ensures Plain(s)
  {
  }

  /** The words of the basic information are plain letters. */
  lemma BasicKeysPlain()
    ensures Plain(NameKey) && Plain(AuthorKey) && Plain(ColorSpaceKey) && Plain(UuidKey) && Plain(SRgb)
  {
    assert Word(NameKey) && Word(AuthorKey) && Word(ColorSpaceKey) && Word(UuidKey) && Word(SRgb);
    WordPlain(NameKey);
    WordPlain(AuthorKey);
    WordPlain(ColorSpaceKey);
    WordPlain(UuidKey);
    WordPlain(SRgb);
  }

  /** The words of a rule dict are plain letters. */
  lemma RuleKeysPlain()
    ensures Plain(ScopeKey) && Plain(FontStyleKey) && Plain(ForegroundKey)
    ensures Plain(BackgroundKey) && Plain(SelectionForegroundKey)
  {
    assert Word(ScopeKey) && Word(FontStyleKey) && Word(ForegroundKey);
    assert Word(BackgroundKey) && Word(SelectionForegroundKey);
    WordPlain(ScopeKey);
    WordPlain(FontStyleKey);
    WordPlain(ForegroundKey);
    WordPlain(BackgroundKey);
    WordPlain(SelectionForegroundKey);
  }

  /** The fixed words are plain letters. */
  lemma KeysPlain()
    ensures Plain(NameKey) && Plain(AuthorKey) && Plain(ColorSpaceKey) && Plain(UuidKey)
    ensures Plain(SRgb) && Plain(ScopeKey) && Plain(FontStyleKey) && Plain(ForegroundKey)
    ensures Plain(BackgroundKey) && Plain(SelectionForegroundKey)
  {
    BasicKeysPlain();
    RuleKeysPlain();
  }

  /** Both escapes keep the fixed words, so a reader finds them as written. */
  lemma KeysKept()
    ensures KeepsKeys(Escape) && KeepsKeys(EscapeAmpFirst)
  {
    KeysPlain();
  }

  /** What a reader sees in the basic information of a theme. */
  function BasicEntries(esc: Escaper, t: Theme, uuid: string): seq<Entry> {
    [Entry(2, esc(NameKey), esc(t.name))]
    + (if t.author != "" then [Entry(2, esc(AuthorKey), esc(t.author))] else [])
    + [Entry(2, esc(ColorSpaceKey), esc(SRgb)), Entry(2, esc(UuidKey), esc(uuid))]
  }

  /** writeBasicInfo: name, the author only when it is set, the colour
      space and the UUID, each a pair at depth 2. */
  function BasicInfo(esc: Escaper, t: Theme, uuid: string): (r: seq<Line>)
    ensures Entries(r) == BasicEntries(esc, t, uuid)
    ensures EndsWhole(r)
    ensures forall st: seq<Tag> | |st| == 2 :: Level(r, st)
    ensures r == PairLines(BasicEntries(esc, t, uuid))
  {
    var name := Node(esc, 2, NameKey, t.name);
    var author := if t.author != "" then Node(esc, 2, AuthorKey, t.author) else [];
    var space := Node(esc, 2, ColorSpaceKey, SRgb);
    var id := Node(esc, 2, UuidKey, uuid);
    BasicInfoEntries(esc, t, uuid, name, author, space, id);
    EndsWholeAppend(name + author + space, id);
    assert forall st: seq<Tag> | |st| == 2 :: Level(author, st) by {
      if t.author == "" {
        assert forall st: seq<Tag> :: Level([], st);
      }
    }
    NodeLevelAppend(name, author, 2);
    NodeLevelAppend(name + author, space, 2);
    NodeLevelAppend(name + author + space, id, 2);
    assert Paired(author) && Flat(author) by {
      if t.author == "" {
        assert Paired([]) && Flat([]);
      }
    }
    FlatPairedAppend(name, author);
    FlatPairedAppend(name + author, space);
    FlatPairedAppend(name + author + space, id);
    PairedFlatLines(name + author + space + id);
    name + author + space + id
  }

  lemma BasicInfoEntries(esc: Escaper, t: Theme, uuid: string,
                         name: seq<Line>, author: seq<Line>, space: seq<Line>, id: seq<Line>)
    requires Entries(name) == [Entry(2, esc(NameKey), esc(t.name))] && EndsWhole(name)
    requires t.author != "" ==> Entries(author) == [Entry(2, esc(AuthorKey), esc(t.author))] && EndsWhole(author)
    requires t.author == "" ==> author == []
    requires Entries(space) == [Entry(2, esc(ColorSpaceKey), esc(SRgb))] && EndsWhole(space)
    requires Entries(id) == [Entry(2, esc(UuidKey), esc(uuid))]
    ensures Entries(name + author + space + id) == BasicEntries(esc, t, uuid)
  {
    assert t.author == "" ==> Entries(author) == [] && EndsWhole(author);
    EntriesOfFour(name, author, space, id);
    PairTail(Entries(name) + Entries(author), Entry(2, esc(ColorSpaceKey), esc(SRgb)), Entry(2, esc(UuidKey), esc(uuid)));
  }

  lemma EntriesOfFour(a: seq<Line>, b: seq<Line>, c: seq<Line>, d: seq<Line>)
    requires EndsWhole(a) && EndsWhole(b) && EndsWhole(c)
    ensures Entries(a + b + c + d) == Entries(a) + Entries(b) + Entries(c) + Entries(d)
  {
    EndsWholeAppend(a, b);
    EntriesAppend(a, b);
    EndsWholeAppend(a + b, c);
    EntriesAppend(a + b, c);
    EntriesAppend(a + b + c, d);
  }

  lemma PairTail<T>(xs: seq<T>, y: T, z: T)
    ensures xs + [y] + [z] == xs + [y, z]
  {
  }

  // ---------------------------------------------------------------------
  // globals

  /** Every listed global resolves without a panic. */
  predicate GlobalsResolve(m: OrderedMap, lib: ColorLibrary, vars: map<string, string>, keys: seq<string>) {
    forall i :: 0 <= i < |keys| ==> Get(m, lib, vars, keys[i]).Ok?
  }

  lemma GlobalsResolveTail(m: OrderedMap, lib: ColorLibrary, vars: map<string, string>, keys: seq<string>)
    requires |keys| > 0
    ensures GlobalsResolve(m, lib, vars, keys)
      <==> Get(m, lib, vars, keys[0]).Ok? && GlobalsResolve(m, lib, vars, keys[1..])
  {
    AllTail(keys, k => Get(m, lib, vars, k).Ok?);
  }

  /** The loop of writeBody over the global keys, in their order, one node
      each at depth 5. */
  function GlobalNodes(esc: Escaper, m: OrderedMap, lib: ColorLibrary, vars: map<string, string>, keys: seq<string>)
    : (r: Outcome<seq<Line>>)
    ensures r.Ok? <==> GlobalsResolve(m, lib, vars, keys)
    ensures r.Ok? ==> Entries(r.value) == GlobalEntries(esc, m, lib, vars, keys)
    ensures r.Ok? ==> EndsWhole(r.value)
    ensures r.Ok? ==> forall st: seq<Tag> | |st| == 5 :: Level(r.value, st)
    ensures r.Ok? ==> r.value == PairLines(GlobalEntries(esc, m, lib, vars, keys))
    decreases |keys|
  {
    if |keys| == 0 then
      assert forall st: seq<Tag> :: Level([], st);
      assert PerKey(keys, k => GlobalEntry(esc, m, lib, vars, k)) == [];
      Ok([])
    else
      GlobalsResolveTail(m, lib, vars, keys);
      var v :- Get(m, lib, vars, keys[0]);
      var rest :- GlobalNodes(esc, m, lib, vars, keys[1..]);
      var node := Node(esc, 5, keys[0], v);
      PerKeyCons(keys, k => GlobalEntry(esc, m, lib, vars, k));
      EntriesAppend(node, rest);
      EndsWholeAppend(node, rest);
      NodeLevelAppend(node, rest, 5);
      PairLinesPaired(GlobalEntries(esc, m, lib, vars, keys[1..]));
      FlatPairedAppend(node, rest);
      PairedFlatLines(node + rest);
      Ok(node + rest)
  }

  /** A list built key by key starts with the first key's item. */
  lemma PerKeyCons<T>(keys: seq<string>, f: string -> T)
    requires |keys| > 0
    ensures PerKey(keys, f) == [f(keys[0])] + PerKey(keys[1..], f)
  {
    var a, b := PerKey(keys, f), [f(keys[0])] + PerKey(keys[1..], f);
    assert |a| == |b|;
    forall i | 0 <= i < |a| ensures a[i] == b[i] {
      if i > 0 {
        assert keys[1..][i - 1] == keys[i];
      }
    }
  }

  /** Two runs that each keep the stack keep it together. */
  lemma NodeLevelAppend(a: seq<Line>, b: seq<Line>, depth: nat)
    requires forall st: seq<Tag> | |st| == depth :: Level(a, st)
    requires forall st: seq<Tag> | |st| == depth :: Level(b, st)
    ensures forall st: seq<Tag> | |st| == depth :: Level(a + b, st)
  {
    forall st: seq<Tag> | |st| == depth ensures Level(a + b, st) {
      LevelAppend(a, b, st);
    }
  }

  // ---------------------------------------------------------------------
  // rules

  function Present(key: string, raw: string): seq<string> {
    if raw == "" then [] else [key]
  }

  /** The names of the fields a rule has set, in the order writeRule
      tests them. */
  function PresentFields(r: Rule): seq<string> {
    Present(FontStyleKey, r.fontStyle) + Present(ForegroundKey, r.foreground)
    + Present(BackgroundKey, r.background) + Present(SelectionForegroundKey, r.selectionForeground)
  }

  /** A field is written only when its raw text is set, and then it must
      resolve. */
  predicate Resolved(raw: string, value: Outcome<string>) {
    raw == "" || value.Ok?
  }

  /** Every set field of the rule resolves without a panic. */
  predicate RuleResolves(r: Rule, lib: ColorLibrary, vars: map<string, string>) {
    Resolved(r.fontStyle, GetFontStyle(r, lib, vars))
    && Resolved(r.foreground, GetForeground(r, lib, vars))
    && Resolved(r.background, GetBackground(r, lib, vars))
    && Resolved(r.selectionForeground, GetSelectionForeground(r, lib, vars))
  }

  /** The pair a set field adds to the settings dict. */
  function FieldEntries(esc: Escaper, key: string, raw: string, value: Outcome<string>): seq<Entry> {
    if raw == "" || value.Panic? then [] else [Entry(5, esc(key), esc(value.value))]
  }

  /** One `if field != ""` block of writeRule: the node of a set field, at
      depth 5, with the field's resolved value. */
  function Field(esc: Escaper, key: string, raw: string, value: Outcome<string>): (r: Outcome<seq<Line>>)
    ensures r.Ok? <==> Resolved(raw, value)
    ensures r.Ok? ==> Entries(r.value) == FieldEntries(esc, key, raw, value)
    ensures r.Ok? ==> EndsWhole(r.value)
    ensures r.Ok? ==> forall st: seq<Tag> | |st| == 5 :: Level(r.value, st)
    ensures r.Ok? ==> r.value == PairLines(FieldEntries(esc, key, raw, value))
    ensures r.Ok? ==> Paired(r.value) && Flat(r.value)
  {
    if raw == "" then
      assert forall st: seq<Tag> :: Level([], st);
      assert Paired([]) && Flat([]);
      Ok([])
    else
      var v :- value;
      var node := Node(esc, 5, key, v);
      PairedFlatLines(node);
      Ok(node)
  }

  /** The name and scope pairs of a rule's dict, at depth 4. */
  function NamedEntries(esc: Escaper, r: Rule): seq<Entry> {
    [Entry(4, esc(NameKey), esc(r.name)), Entry(4, esc(ScopeKey), esc(r.scope))]
  }

  /** The pairs of a rule's settings dict: the set fields at depth 5, in
      writeRule's order. */
  function SettingsEntries(esc: Escaper, r: Rule, lib: ColorLibrary, vars: map<string, string>): seq<Entry> {
    FieldEntries(esc, FontStyleKey, r.fontStyle, GetFontStyle(r, lib, vars))
    + FieldEntries(esc, ForegroundKey, r.foreground, GetForeground(r, lib, vars))
    + FieldEntries(esc, BackgroundKey, r.background, GetBackground(r, lib, vars))
    + FieldEntries(esc, SelectionForegroundKey, r.selectionForeground, GetSelectionForeground(r, lib, vars))
  }

  /** What a reader sees in a rule's dict: its name and scope, then the set
      fields. */
  function RuleEntries(esc: Escaper, r: Rule, lib: ColorLibrary, vars: map<string, string>): seq<Entry> {
    NamedEntries(esc, r) + SettingsEntries(esc, r, lib, vars)
  }

  /** writeRule: a dict with the name and scope, then the settings dict
      holding the set fields in order. */
  function RuleLines(esc: Escaper, r: Rule, lib: ColorLibrary, vars: map<string, string>): (out: Outcome<seq<Line>>)
    ensures out.Ok? <==> RuleResolves(r, lib, vars)
    ensures out.Ok? ==> Entries(out.value) == RuleEntries(esc, r, lib, vars)
    ensures out.Ok? ==> EndsWhole(out.value)
    ensures out.Ok? ==> forall st: seq<Tag> | |st| == 3 :: Level(out.value, st)
    ensures out.Ok? ==> Paired(out.value)
  {
    var named := Node(esc, 4, NameKey, r.name) + Node(esc, 4, ScopeKey, r.scope);
    var fs :- Field(esc, FontStyleKey, r.fontStyle, GetFontStyle(r, lib, vars));
    var fg :- Field(esc, ForegroundKey, r.foreground, GetForeground(r, lib, vars));
    var bg :- Field(esc, BackgroundKey, r.background, GetBackground(r, lib, vars));
    var sf :- Field(esc, SelectionForegroundKey, r.selectionForeground, GetSelectionForeground(r, lib, vars));
    NamedShape(esc, r);
    SettingsShape(fs, fg, bg, sf);
    RuleFrameShape(named, fs + fg + bg + sf);
    RuleFramePaired(named, fs, fg, bg, sf);
    Ok(RuleFrame(named, fs + fg + bg + sf))
  }

  /** The settings fields of a rule, one after the other. */
  lemma SettingsShape(fs: seq<Line>, fg: seq<Line>, bg: seq<Line>, sf: seq<Line>)
    requires EndsWhole(fs) && EndsWhole(fg) && EndsWhole(bg) && EndsWhole(sf)
    requires forall st: seq<Tag> | |st| == 5 :: Level(fs, st) && Level(fg, st) && Level(bg, st) && Level(sf, st)
    ensures Entries(fs + fg + bg + sf) == Entries(fs) + Entries(fg) + Entries(bg) + Entries(sf)
    ensures EndsWhole(fs + fg + bg + sf)
    ensures forall st: seq<Tag> | |st| == 5 :: Level(fs + fg + bg + sf, st)
  {
    EntriesAppend(fs, fg);
    EndsWholeAppend(fs, fg);
    EntriesAppend(fs + fg, bg);
    EndsWholeAppend(fs + fg, bg);
    EntriesAppend(fs + fg + bg, sf);
    EndsWholeAppend(fs + fg + bg, sf);
    NodeLevelAppend(fs, fg, 5);
    NodeLevelAppend(fs + fg, bg, 5);
    NodeLevelAppend(fs + fg + bg, sf, 5);
  }

  /** The name and scope nodes of a rule. */
  lemma NamedShape(esc: Escaper, r: Rule)
    ensures var named := Node(esc, 4, NameKey, r.name) + Node(esc, 4, ScopeKey, r.scope);
      && Entries(named) == NamedEntries(esc, r)
      && EndsWhole(named)
      && forall st: seq<Tag> | |st| == 4 :: Level(named, st)
  {
    var a, b := Node(esc, 4, NameKey, r.name), Node(esc, 4, ScopeKey, r.scope);
    EntriesAppend(a, b);
    EndsWholeAppend(a, b);
    NodeLevelAppend(a, b, 4);
  }

  /** The fixed lines writeRule puts around the name, scope and settings:
      the rule's dict at depth 3 and, inside it, the settings key and dict. */
  function RuleFrame(named: seq<Line>, settings: seq<Line>): seq<Line> {
    Wrapped(3, DictTag, named + ([KeyLine(4, SettingsKey)] + Wrapped(4, DictTag, settings)))
  }

  lemma RuleFrameShape(named: seq<Line>, settings: seq<Line>)
    requires EndsWhole(named) && EndsWhole(settings)
    requires forall st: seq<Tag> | |st| == 4 :: Level(named, st)
    requires forall st: seq<Tag> | |st| == 5 :: Level(settings, st)
    ensures Entries(RuleFrame(named, settings)) == Entries(named) + Entries(settings)
    ensures EndsWhole(RuleFrame(named, settings))
    ensures forall st: seq<Tag> | |st| == 3 :: Level(RuleFrame(named, settings), st)
  {
    RuleFrameEntries(named, settings);
    forall st: seq<Tag> | |st| == 3 ensures Level(RuleFrame(named, settings), st) {
      RuleFrameLevel(named, settings, st);
    }
  }

  /** No stray line in a rule's dict: the settings key names its dict, and
      every other key has its string. */
  lemma RuleFramePaired(named: seq<Line>, fs: seq<Line>, fg: seq<Line>, bg: seq<Line>, sf: seq<Line>)
    requires Paired(named)
    requires Paired(fs) && Flat(fs) && Paired(fg) && Flat(fg)
    requires Paired(bg) && Flat(bg) && Paired(sf) && Flat(sf)
    ensures Paired(RuleFrame(named, fs + fg + bg + sf))
  {
    var settings := fs + fg + bg + sf;
    FlatPairedAppend(fs, fg);
    FlatPairedAppend(fs + fg, bg);
    FlatPairedAppend(fs + fg + bg, sf);
    PairedKeyedContainer(SettingsKey, 4, DictTag, settings);
    PairedAppend(named, [KeyLine(4, SettingsKey)] + Wrapped(4, DictTag, settings));
    PairedWrapped(3, DictTag, named + ([KeyLine(4, SettingsKey)] + Wrapped(4, DictTag, settings)));
  }

  lemma RuleFrameEntries(named: seq<Line>, settings: seq<Line>)
    requires EndsWhole(named) && EndsWhole(settings)
    ensures Entries(RuleFrame(named, settings)) == Entries(named) + Entries(settings)
    ensures EndsWhole(RuleFrame(named, settings))
  {
    var inner := [KeyLine(4, SettingsKey)] + Wrapped(4, DictTag, settings);
    EntriesKeyedContainer(SettingsKey, 4, DictTag, settings);
    EntriesWrapped(4, DictTag, settings);
    EndsWholeAppend([KeyLine(4, SettingsKey)], Wrapped(4, DictTag, settings));
    EntriesAppend(named, inner);
    EndsWholeAppend(named, inner);
    EntriesWrapped(3, DictTag, named + inner);
  }

  lemma RuleFrameLevel(named: seq<Line>, settings: seq<Line>, st: seq<Tag>)
    requires |st| == 3
    requires Level(named, st + [DictTag])
    requires Level(settings, st + [DictTag] + [DictTag])
    ensures Level(RuleFrame(named, settings), st)
  {
    var inner := [KeyLine(4, SettingsKey)] + Wrapped(4, DictTag, settings);
    var s4 := st + [DictTag];
    Wrap(DictTag, settings, s4);
    LevelKey(SettingsKey, s4);
    LevelAppend([KeyLine(4, SettingsKey)], Wrapped(4, DictTag, settings), s4);
    LevelAppend(named, inner, s4);
    Wrap(DictTag, named + inner, st);
  }

  /** A resolved field contributes its key to the settings dict exactly
      when its raw text is set. */
  lemma FieldKeys(esc: Escaper, key: string, raw: string, value: Outcome<string>)
    requires Resolved(raw, value) && esc(key) == key
    ensures KeysAt(FieldEntries(esc, key, raw, value), 5) == Present(key, raw)
    ensures KeysAt(FieldEntries(esc, key, raw, value), 4) == []
  {
    if raw != "" {
      KeysAtOne(Entry(5, key, esc(value.value)), 5);
      KeysAtOne(Entry(5, key, esc(value.value)), 4);
    }
  }

  /** The rule dict names the rule and its scope, and its settings dict
      holds a key for every set field and for no other. */
  lemma RuleSettingsKeys(esc: Escaper, r: Rule, lib: ColorLibrary, vars: map<string, string>)
    requires KeepsKeys(esc) && RuleResolves(r, lib, vars)
    ensures KeysAt(RuleEntries(esc, r, lib, vars), 4) == [NameKey, ScopeKey]
    ensures KeysAt(RuleEntries(esc, r, lib, vars), 5) == PresentFields(r)
  {
    var f1 := FieldEntries(esc, FontStyleKey, r.fontStyle, GetFontStyle(r, lib, vars));
    var f2 := FieldEntries(esc, ForegroundKey, r.foreground, GetForeground(r, lib, vars));
    var f3 := FieldEntries(esc, BackgroundKey, r.background, GetBackground(r, lib, vars));
    var f4 := FieldEntries(esc, SelectionForegroundKey, r.selectionForeground, GetSelectionForeground(r, lib, vars));
    var named := NamedEntries(esc, r);
    FieldKeys(esc, FontStyleKey, r.fontStyle, GetFontStyle(r, lib, vars));
    FieldKeys(esc, ForegroundKey, r.foreground, GetForeground(r, lib, vars));
    FieldKeys(esc, BackgroundKey, r.background, GetBackground(r, lib, vars));
    FieldKeys(esc, SelectionForegroundKey, r.selectionForeground, GetSelectionForeground(r, lib, vars));
    NamedKeys(named[0], named[1]);
    assert named == [named[0], named[1]];
    KeysRule(named, f1, f2, f3, f4, 4);
    KeysRule(named, f1, f2, f3, f4, 5);
  }

  lemma NamedKeys(a: Entry, b: Entry)
    requires a.depth == 4 && b.depth == 4
    ensures KeysAt([a, b], 4) == [a.key, b.key]
    ensures KeysAt([a, b], 5) == []
  {
    assert [a, b] == [a] + [b];
    KeysAtAppend([a], [b], 4);
    KeysAtAppend([a], [b], 5);
    KeysAtOne(a, 4);
    KeysAtOne(b, 4);
    KeysAtOne(a, 5);
    KeysAtOne(b, 5);
  }

  lemma KeysRule(named: seq<Entry>, f1: seq<Entry>, f2: seq<Entry>, f3: seq<Entry>, f4: seq<Entry>, d: nat)
    ensures KeysAt(named + (f1 + f2 + f3 + f4), d)
      == KeysAt(named, d) + (KeysAt(f1, d) + KeysAt(f2, d) + KeysAt(f3, d) + KeysAt(f4, d))
  {
    KeysAtAppend(named, f1 + f2 + f3 + f4, d);
    KeysAtAppend(f1 + f2 + f3, f4, d);
    KeysAtAppend(f1 + f2, f3, d);
    KeysAtAppend(f1, f2, d);
  }

  // ---------------------------------------------------------------------
  // the rule loop, the body and the document

  /** Every rule resolves without a panic. */
  predicate RulesResolve(rules: seq<Rule>, lib: ColorLibrary, vars: map<string, string>) {
    forall i :: 0 <= i < |rules| ==> RuleResolves(rules[i], lib, vars)
  }

  /** What a reader sees in the rule dicts, rule by rule. */
  function RulesEntries(esc: Escaper, rules: seq<Rule>, lib: ColorLibrary, vars: map<string, string>): seq<Entry>
    decreases |rules|
  {
    if |rules| == 0 then [] else RuleEntries(esc, rules[0], lib, vars) + RulesEntries(esc, rules[1..], lib, vars)
  }

  lemma RulesResolveTail(rules: seq<Rule>, lib: ColorLibrary, vars: map<string, string>)
    requires |rules| > 0
    ensures RulesResolve(rules, lib, vars)
      <==> RuleResolves(rules[0], lib, vars) && RulesResolve(rules[1..], lib, vars)
  {
    AllTail(rules, r => RuleResolves(r, lib, vars));
  }

  /** The loop of writeBody over the rules, in their order. */
  function RuleNodes(esc: Escaper, rules: seq<Rule>, lib: ColorLibrary, vars: map<string, string>): (r: Outcome<seq<Line>>)
    ensures r.Ok? <==> RulesResolve(rules, lib, vars)
    ensures r.Ok? ==> Entries(r.value) == RulesEntries(esc, rules, lib, vars)
    ensures r.Ok? ==> EndsWhole(r.value)
    ensures r.Ok? ==> forall st: seq<Tag> | |st| == 3 :: Level(r.value, st)
    ensures r.Ok? ==> Paired(r.value)
    decreases |rules|
  {
    if |rules| == 0 then
      assert forall st: seq<Tag> :: Level([], st);
      assert Paired([]);
      Ok([])
    else
      RulesResolveTail(rules, lib, vars);
      var first :- RuleLines(esc, rules[0], lib, vars);
      var rest :- RuleNodes(esc, rules[1..], lib, vars);
      EntriesAppend(first, rest);
      EndsWholeAppend(first, rest);
      NodeLevelAppend(first, rest, 3);
      PairedAppend(first, rest);
      Ok(first + rest)
  }

  /** The resolved value of a global, or nothing when it panics. */
  function ValueOf(o: Outcome<string>): string {
    if o.Ok? then o.value else ""
  }

  /** What a reader sees in the global settings dict: one pair per listed
      key, in order, with the key's resolved value. */
  function GlobalEntries(esc: Escaper, m: OrderedMap, lib: ColorLibrary, vars: map<string, string>, keys: seq<string>)
    : seq<Entry>
  {
    PerKey(keys, k => GlobalEntry(esc, m, lib, vars, k))
  }

  /** The pair of one global key. */
  function GlobalEntry(esc: Escaper, m: OrderedMap, lib: ColorLibrary, vars: map<string, string>, key: string): Entry {
    Entry(5, esc(key), esc(ValueOf(Get(m, lib, vars, key))))
  }

  /** A listed key without data is still written, with the empty string as
      its value. */
  lemma GlobalWithoutData(esc: Escaper, m: OrderedMap, lib: ColorLibrary, vars: map<string, string>, i: nat)
    requires i < |m.keys| && m.keys[i] !in m.data
    ensures GlobalEntries(esc, m, lib, vars, m.keys)[i] == Entry(5, esc(m.keys[i]), esc(""))
  {
  }

  /** A theme file naming its globals member twice: the first member's key
      opens the globals dict, written with an empty value. */
  lemma RepeatedGlobalsWrittenEmpty(esc: Escaper, lib: ColorLibrary, vars: map<string, string>)
    ensures var m := Unmarshal(Decode([Str("a"), Str("1")]), [Str("b"), Str("2")]);
      var r := GlobalNodes(esc, m, lib, vars, m.keys);
      r.Ok? ==> r.value[..2] == [KeyLine(5, esc("a")), StringLine(5, esc(""))]
  {
    var m := Unmarshal(Decode([Str("a"), Str("1")]), [Str("b"), Str("2")]);
    UnmarshalRepeated();
    GlobalWithoutData(esc, m, lib, vars, 0);
    var es := GlobalEntries(esc, m, lib, vars, m.keys);
    assert es == [es[0]] + es[1..];
  }

  /** One item per key, in the keys' order. */
  function PerKey<T>(keys: seq<string>, f: string -> T): seq<T> {
    seq(|keys|, i requires 0 <= i < |keys| => f(keys[i]))
  }

  /** The whole theme resolves: every listed global and every rule. */
  predicate ThemeResolves(t: Theme, lib: ColorLibrary) {
    GlobalsResolve(t.globals, lib, t.variables, t.globals.keys)
    && RulesResolve(t.rules, lib, t.variables)
  }

  /** writeBody: the settings array; its first dict holds the globals, one
      dict per rule follows. */
  function BodyFrame(globals: seq<Line>, rules: seq<Line>): seq<Line> {
    [KeyLine(2, SettingsKey)]
    + Wrapped(2, ArrayTag,
        Wrapped(3, DictTag, [KeyLine(4, SettingsKey)] + Wrapped(4, DictTag, globals))
        + rules)
  }

  function Body(esc: Escaper, t: Theme, lib: ColorLibrary): (r: Outcome<seq<Line>>)
    ensures r.Ok? <==> ThemeResolves(t, lib)
    ensures r.Ok? ==>
      Entries(r.value)
      == GlobalEntries(esc, t.globals, lib, t.variables, t.globals.keys) + RulesEntries(esc, t.rules, lib, t.variables)
    ensures r.Ok? ==> EndsWhole(r.value)
    ensures r.Ok? ==> forall st: seq<Tag> | |st| == 2 :: Level(r.value, st)
    ensures r.Ok? ==> Paired(r.value)
  {
    var g :- GlobalNodes(esc, t.globals, lib, t.variables, t.globals.keys);
    var rs :- RuleNodes(esc, t.rules, lib, t.variables);
    BodyShape(g, rs);
    PairLinesPaired(GlobalEntries(esc, t.globals, lib, t.variables, t.globals.keys));
    BodyPaired(g, rs);
    Ok(BodyFrame(g, rs))
  }

  lemma BodyShape(g: seq<Line>, rs: seq<Line>)
    requires EndsWhole(g) && EndsWhole(rs)
    requires forall st: seq<Tag> | |st| == 5 :: Level(g, st)
    requires forall st: seq<Tag> | |st| == 3 :: Level(rs, st)
    ensures Entries(BodyFrame(g, rs)) == Entries(g) + Entries(rs)
    ensures EndsWhole(BodyFrame(g, rs))
    ensures forall st: seq<Tag> | |st| == 2 :: Level(BodyFrame(g, rs), st)
  {
    BodyEntries(g, rs);
    forall st: seq<Tag> | |st| == 2 ensures Level(BodyFrame(g, rs), st) {
      BodyLevel(g, rs, st);
    }
  }

  /** No stray line in the settings array: both settings keys name their
      containers. */
  lemma BodyPaired(g: seq<Line>, rs: seq<Line>)
    requires Paired(g) && Paired(rs)
    ensures Paired(BodyFrame(g, rs))
  {
    var settings := [KeyLine(4, SettingsKey)] + Wrapped(4, DictTag, g);
    var first := Wrapped(3, DictTag, settings);
    PairedKeyedContainer(SettingsKey, 4, DictTag, g);
    PairedWrapped(3, DictTag, settings);
    PairedAppend(first, rs);
    PairedKeyedContainer(SettingsKey, 2, ArrayTag, first + rs);
  }

  lemma BodyEntries(g: seq<Line>, rs: seq<Line>)
    requires EndsWhole(g) && EndsWhole(rs)
    ensures Entries(BodyFrame(g, rs)) == Entries(g) + Entries(rs)
    ensures EndsWhole(BodyFrame(g, rs))
  {
    var settings := [KeyLine(4, SettingsKey)] + Wrapped(4, DictTag, g);
    var first := Wrapped(3, DictTag, settings);
    EntriesKeyedContainer(SettingsKey, 4, DictTag, g);
    EntriesWrapped(4, DictTag, g);
    EndsWholeAppend([KeyLine(4, SettingsKey)], Wrapped(4, DictTag, g));
    EntriesWrapped(3, DictTag, settings);
    EntriesAppend(first, rs);
    EndsWholeAppend(first, rs);
    EntriesKeyedContainer(SettingsKey, 2, ArrayTag, first + rs);
    EntriesWrapped(2, ArrayTag, first + rs);
    EndsWholeAppend([KeyLine(2, SettingsKey)], Wrapped(2, ArrayTag, first + rs));
  }

  lemma BodyLevel(g: seq<Line>, rs: seq<Line>, st: seq<Tag>)
    requires |st| == 2
    requires Level(g, st + [ArrayTag] + [DictTag] + [DictTag])
    requires Level(rs, st + [ArrayTag])
    ensures Level(BodyFrame(g, rs), st)
  {
    var s3 := st + [ArrayTag];
    var s4 := s3 + [DictTag];
    var settings := [KeyLine(4, SettingsKey)] + Wrapped(4, DictTag, g);
    var first := Wrapped(3, DictTag, settings);
    Wrap(DictTag, g, s4);
    LevelKey(SettingsKey, s4);
    LevelAppend([KeyLine(4, SettingsKey)], Wrapped(4, DictTag, g), s4);
    Wrap(DictTag, settings, s3);
    LevelAppend(first, rs, s3);
    Wrap(ArrayTag, first + rs, st);
    LevelKey(SettingsKey, st);
    LevelAppend([KeyLine(2, SettingsKey)], Wrapped(2, ArrayTag, first + rs), st);
  }

  /** Everything a reader finds in the converted theme, in file order. */
  function DocumentEntries(esc: Escaper, t: Theme, lib: ColorLibrary, uuid: string): seq<Entry> {
    BasicEntries(esc, t, uuid)
    + (GlobalEntries(esc, t.globals, lib, t.variables, t.globals.keys) + RulesEntries(esc, t.rules, lib, t.variables))
  }

  /** The lines Convert writes after the preamble: the plist element around
      the top dict, which holds the basic info and the body. */
  function Document(esc: Escaper, t: Theme, lib: ColorLibrary, uuid: string): (r: Outcome<seq<Line>>)
    ensures r.Ok? <==> ThemeResolves(t, lib)
    ensures r.Ok? ==> Balanced(r.value)
    ensures r.Ok? ==> Entries(r.value) == DocumentEntries(esc, t, lib, uuid)
    ensures r.Ok? ==> Paired(r.value)
  {
    var body :- Body(esc, t, lib);
    DocumentShape(BasicInfo(esc, t, uuid), body);
    PairLinesPaired(BasicEntries(esc, t, uuid));
    DocumentPaired(BasicInfo(esc, t, uuid), body);
    Ok(Wrapped(0, PlistTag, Wrapped(1, DictTag, BasicInfo(esc, t, uuid) + body)))
  }

  /** No stray line anywhere in the document. */
  lemma DocumentPaired(info: seq<Line>, body: seq<Line>)
    requires Paired(info) && Paired(body)
    ensures Paired(Wrapped(0, PlistTag, Wrapped(1, DictTag, info + body)))
  {
    PairedAppend(info, body);
    PairedWrapped(1, DictTag, info + body);
    PairedWrapped(0, PlistTag, Wrapped(1, DictTag, info + body));
  }

  lemma DocumentShape(info: seq<Line>, body: seq<Line>)
    requires EndsWhole(info) && EndsWhole(body)
    requires forall st: seq<Tag> | |st| == 2 :: Level(info, st)
    requires forall st: seq<Tag> | |st| == 2 :: Level(body, st)
    ensures Balanced(Wrapped(0, PlistTag, Wrapped(1, DictTag, info + body)))
    ensures Entries(Wrapped(0, PlistTag, Wrapped(1, DictTag, info + body))) == Entries(info) + Entries(body)
  {
    var top: seq<Tag> := [PlistTag, DictTag];
    LevelAppend(info, body, top);
    assert [PlistTag] + [DictTag] == top;
    Wrap(DictTag, info + body, [PlistTag]);
    assert [] + [PlistTag] == [PlistTag];
    Wrap(PlistTag, Wrapped(1, DictTag, info + body), []);
    EntriesAppend(info, body);
    EndsWholeAppend(info, body);
    EntriesWrapped(1, DictTag, info + body);
    EntriesWrapped(0, PlistTag, Wrapped(1, DictTag, info + body));
  }

  // ---------------------------------------------------------------------
  // the texts the converter writes

  /** The theme's own texts in the basic information all satisfy ok. */
  predicate BasicTextsOk(ok: string -> bool, t: Theme, uuid: string) {
    ok(t.name) && (t.author != "" ==> ok(t.author)) && ok(uuid)
  }

  /** Every listed global key and its resolved value satisfy ok. */
  predicate GlobalTextsOk(ok: string -> bool, m: OrderedMap, lib: ColorLibrary, vars: map<string, string>, keys: seq<string>) {
    forall i :: 0 <= i < |keys| ==> ok(keys[i]) && ok(ValueOf(Get(m, lib, vars, keys[i])))
  }

  /** A written field's resolved value satisfies ok. */
  predicate FieldOk(ok: string -> bool, raw: string, value: Outcome<string>) {
    raw == "" || value.Panic? || ok(value.value)
  }

  /** The rule's name, scope and written field values satisfy ok. */
  predicate RuleTextsOk(ok: string -> bool, r: Rule, lib: ColorLibrary, vars: map<string, string>) {
    ok(r.name) && ok(r.scope)
    && FieldOk(ok, r.fontStyle, GetFontStyle(r, lib, vars))
    && FieldOk(ok, r.foreground, GetForeground(r, lib, vars))
    && FieldOk(ok, r.background, GetBackground(r, lib, vars))
    && FieldOk(ok, r.selectionForeground, GetSelectionForeground(r, lib, vars))
  }

  /** Every text of the theme that the converter writes satisfies ok. */
  predicate TextsOk(ok: string -> bool, t: Theme, lib: ColorLibrary, uuid: string) {
    BasicTextsOk(ok, t, uuid)
    && GlobalTextsOk(ok, t.globals, lib, t.variables, t.globals.keys)
    && forall i :: 0 <= i < |t.rules| ==> RuleTextsOk(ok, t.rules[i], lib, t.variables)
  }

  /** A condition every text satisfies holds of the texts of any theme. */
  lemma TextsOkAll(ok: string -> bool, t: Theme, lib: ColorLibrary, uuid: string)
    requires forall s :: ok(s)
    ensures TextsOk(ok, t, lib, uuid)
  {
  }

  /** A weaker condition holds of the texts wherever a stronger one does. */
  lemma TextsOkWeaken(p: string -> bool, q: string -> bool, t: Theme, lib: ColorLibrary, uuid: string)
    requires forall s :: p(s) ==> q(s)
    requires TextsOk(p, t, lib, uuid)
    ensures TextsOk(q, t, lib, uuid)
  {
  }

  // ---------------------------------------------------------------------
  // what a reader decodes

  /** The reader gets s back from the escaped text. */
  function ReadsBack(esc: Escaper): string -> bool {
    s => Unescape(esc(s)) == s
  }

  /** A reader's view of one pair after decoding the XML entities. */
  function DecodeEntry(e: Entry): Entry {
    Entry(e.depth, Unescape(e.key), Unescape(e.value))
  }

  function Decoded(es: seq<Entry>): (r: seq<Entry>)
    ensures |r| == |es|
  {
    seq(|es|, i requires 0 <= i < |es| => DecodeEntry(es[i]))
  }

  lemma DecodedAppend(a: seq<Entry>, b: seq<Entry>)
    ensures Decoded(a + b) == Decoded(a) + Decoded(b)
  {
    forall i | 0 <= i < |a| + |b| ensures Decoded(a + b)[i] == (Decoded(a) + Decoded(b))[i] {
      if i < |a| {
        assert (a + b)[i] == a[i];
      } else {
        assert (a + b)[i] == b[i - |a|];
      }
    }
  }

  /** The fixed words decode to themselves once an escape has kept them. */
  lemma KeysReadBack(esc: Escaper)
    requires KeepsKeys(esc)
    ensures ReadsBack(esc)(NameKey) && ReadsBack(esc)(AuthorKey) && ReadsBack(esc)(ColorSpaceKey)
    ensures ReadsBack(esc)(UuidKey) && ReadsBack(esc)(SRgb) && ReadsBack(esc)(ScopeKey)
    ensures ReadsBack(esc)(FontStyleKey) && ReadsBack(esc)(ForegroundKey)
    ensures ReadsBack(esc)(BackgroundKey) && ReadsBack(esc)(SelectionForegroundKey)
  {
    KeysPlain();
    UnescapeNoAmp(NameKey);
    UnescapeNoAmp(AuthorKey);
    UnescapeNoAmp(ColorSpaceKey);
    UnescapeNoAmp(UuidKey);
    UnescapeNoAmp(SRgb);
    UnescapeNoAmp(ScopeKey);
    UnescapeNoAmp(FontStyleKey);
    UnescapeNoAmp(ForegroundKey);
    UnescapeNoAmp(BackgroundKey);
    UnescapeNoAmp(SelectionForegroundKey);
  }

  /** One pair whose key and value the reader gets back. */
  lemma DecodedOne(esc: Escaper, d: nat, key: string, value: string)
    requires ReadsBack(esc)(key) && ReadsBack(esc)(value)
    ensures Decoded([Entry(d, esc(key), esc(value))]) == [Entry(d, Verbatim(key), Verbatim(value))]
  {
  }

  /** A reader of the global settings dict recovers every listed key, in
      order, with its resolved value, when the escape can be undone on them. */
  lemma GlobalsDecodeBack(esc: Escaper, m: OrderedMap, lib: ColorLibrary, vars: map<string, string>, keys: seq<string>)
    requires GlobalTextsOk(ReadsBack(esc), m, lib, vars, keys)
    ensures Decoded(GlobalEntries(esc, m, lib, vars, keys)) == GlobalEntries(Verbatim, m, lib, vars, keys)
  {
    var es := GlobalEntries(esc, m, lib, vars, keys);
    forall i | 0 <= i < |keys|
      ensures Decoded(es)[i] == GlobalEntries(Verbatim, m, lib, vars, keys)[i]
    {
      assert ReadsBack(esc)(keys[i]) && ReadsBack(esc)(ValueOf(Get(m, lib, vars, keys[i])));
    }
  }

  /** A reader of the basic information recovers the name, the author when
      it is set, the colour space and the UUID. */
  lemma BasicDecodesBack(esc: Escaper, t: Theme, uuid: string)
    requires KeepsKeys(esc) && BasicTextsOk(ReadsBack(esc), t, uuid)
    ensures Decoded(BasicEntries(esc, t, uuid)) == BasicEntries(Verbatim, t, uuid)
  {
    KeysReadBack(esc);
    var author := if t.author != "" then [Entry(2, esc(AuthorKey), esc(t.author))] else [];
    var author' := if t.author != "" then [Entry(2, Verbatim(AuthorKey), Verbatim(t.author))] else [];
    if t.author != "" {
      DecodedOne(esc, 2, AuthorKey, t.author);
    }
    DecodedBasic(Entry(2, esc(NameKey), esc(t.name)), author,
      Entry(2, esc(ColorSpaceKey), esc(SRgb)), Entry(2, esc(UuidKey), esc(uuid)),
      Entry(2, Verbatim(NameKey), Verbatim(t.name)), author',
      Entry(2, Verbatim(ColorSpaceKey), Verbatim(SRgb)), Entry(2, Verbatim(UuidKey), Verbatim(uuid)));
  }

  lemma DecodedBasic(x: Entry, y: seq<Entry>, z: Entry, w: Entry, x': Entry, y': seq<Entry>, z': Entry, w': Entry)
    requires DecodeEntry(x) == x' && Decoded(y) == y' && DecodeEntry(z) == z' && DecodeEntry(w) == w'
    ensures Decoded([x] + y + [z, w]) == [x'] + y' + [z', w']
  {
    DecodedAppend([x] + y, [z, w]);
    DecodedAppend([x], y);
  }

  /** A reader of a rule dict recovers the rule's name and scope, and the
      resolved value of every set field under its key. */
  lemma RuleDecodesBack(esc: Escaper, r: Rule, lib: ColorLibrary, vars: map<string, string>)
    requires KeepsKeys(esc) && RuleTextsOk(ReadsBack(esc), r, lib, vars)
    ensures Decoded(RuleEntries(esc, r, lib, vars)) == RuleEntries(Verbatim, r, lib, vars)
  {
    KeysReadBack(esc);
    SettingsDecodeBack(esc, r, GetFontStyle(r, lib, vars), GetForeground(r, lib, vars),
      GetBackground(r, lib, vars), GetSelectionForeground(r, lib, vars));
  }

  /** The same, for any resolved values of the four fields. */
  lemma SettingsDecodeBack(esc: Escaper, r: Rule, v1: Outcome<string>, v2: Outcome<string>,
                           v3: Outcome<string>, v4: Outcome<string>)
    requires ReadsBack(esc)(NameKey) && ReadsBack(esc)(ScopeKey) && ReadsBack(esc)(FontStyleKey)
    requires ReadsBack(esc)(ForegroundKey) && ReadsBack(esc)(BackgroundKey) && ReadsBack(esc)(SelectionForegroundKey)
    requires ReadsBack(esc)(r.name) && ReadsBack(esc)(r.scope)
    requires FieldOk(ReadsBack(esc), r.fontStyle, v1) && FieldOk(ReadsBack(esc), r.foreground, v2)
    requires FieldOk(ReadsBack(esc), r.background, v3) && FieldOk(ReadsBack(esc), r.selectionForeground, v4)
    ensures Decoded(NamedEntries(esc, r)
        + (FieldEntries(esc, FontStyleKey, r.fontStyle, v1) + FieldEntries(esc, ForegroundKey, r.foreground, v2)
           + FieldEntries(esc, BackgroundKey, r.background, v3)
           + FieldEntries(esc, SelectionForegroundKey, r.selectionForeground, v4)))
      == NamedEntries(Verbatim, r)
        + (FieldEntries(Verbatim, FontStyleKey, r.fontStyle, v1) + FieldEntries(Verbatim, ForegroundKey, r.foreground, v2)
           + FieldEntries(Verbatim, BackgroundKey, r.background, v3)
           + FieldEntries(Verbatim, SelectionForegroundKey, r.selectionForeground, v4))
  {
    DecodedOne(esc, 4, NameKey, r.name);
    DecodedOne(esc, 4, ScopeKey, r.scope);
    DecodedAppend([NamedEntries(esc, r)[0]], [NamedEntries(esc, r)[1]]);
    assert NamedEntries(esc, r) == [NamedEntries(esc, r)[0]] + [NamedEntries(esc, r)[1]];
    FieldDecodesBack(esc, FontStyleKey, r.fontStyle, v1);
    FieldDecodesBack(esc, ForegroundKey, r.foreground, v2);
    FieldDecodesBack(esc, BackgroundKey, r.background, v3);
    FieldDecodesBack(esc, SelectionForegroundKey, r.selectionForeground, v4);
    DecodedRule(NamedEntries(esc, r),
      FieldEntries(esc, FontStyleKey, r.fontStyle, v1), FieldEntries(esc, ForegroundKey, r.foreground, v2),
      FieldEntries(esc, BackgroundKey, r.background, v3),
      FieldEntries(esc, SelectionForegroundKey, r.selectionForeground, v4),
      NamedEntries(Verbatim, r),
      FieldEntries(Verbatim, FontStyleKey, r.fontStyle, v1), FieldEntries(Verbatim, ForegroundKey, r.foreground, v2),
      FieldEntries(Verbatim, BackgroundKey, r.background, v3),
      FieldEntries(Verbatim, SelectionForegroundKey, r.selectionForeground, v4));
  }

  lemma FieldDecodesBack(esc: Escaper, key: string, raw: string, value: Outcome<string>)
    requires ReadsBack(esc)(key) && FieldOk(ReadsBack(esc), raw, value)
    ensures Decoded(FieldEntries(esc, key, raw, value)) == FieldEntries(Verbatim, key, raw, value)
  {
    if raw != "" && value.Ok? {
      DecodedOne(esc, 5, key, value.value);
    }
  }

  lemma DecodedRule(named: seq<Entry>, f1: seq<Entry>, f2: seq<Entry>, f3: seq<Entry>, f4: seq<Entry>,
                    n: seq<Entry>, v1: seq<Entry>, v2: seq<Entry>, v3: seq<Entry>, v4: seq<Entry>)
    requires Decoded(named) == n
    requires Decoded(f1) == v1 && Decoded(f2) == v2 && Decoded(f3) == v3 && Decoded(f4) == v4
    ensures Decoded(named + (f1 + f2 + f3 + f4)) == n + (v1 + v2 + v3 + v4)
  {
    DecodedAppend(named, f1 + f2 + f3 + f4);
    DecodedAppend(f1 + f2 + f3, f4);
    DecodedAppend(f1 + f2, f3);
    DecodedAppend(f1, f2);
  }

  /** A reader of the rule dicts recovers every rule, in order. */
  lemma {:induction false} RulesDecodeBack(esc: Escaper, rules: seq<Rule>, lib: ColorLibrary, vars: map<string, string>)
    requires KeepsKeys(esc)
    requires forall i :: 0 <= i < |rules| ==> RuleTextsOk(ReadsBack(esc), rules[i], lib, vars)
    ensures Decoded(RulesEntries(esc, rules, lib, vars)) == RulesEntries(Verbatim, rules, lib, vars)
    decreases |rules|
  {
    if |rules| > 0 {
      RuleDecodesBack(esc, rules[0], lib, vars);
      assert forall i :: 0 <= i < |rules[1..]| ==> rules[1..][i] == rules[i + 1];
      RulesDecodeBack(esc, rules[1..], lib, vars);
      DecodedAppend(RuleEntries(esc, rules[0], lib, vars), RulesEntries(esc, rules[1..], lib, vars));
    }
  }

  /** A reader of the whole document recovers every pair the converter
      would write without escaping, when the escape can be undone on every
      text of the theme. */
  lemma DocumentDecodesBack(esc: Escaper, t: Theme, lib: ColorLibrary, uuid: string)
    requires KeepsKeys(esc) && TextsOk(ReadsBack(esc), t, lib, uuid)
    ensures Decoded(DocumentEntries(esc, t, lib, uuid)) == DocumentEntries(Verbatim, t, lib, uuid)
  {
    BasicDecodesBack(esc, t, uuid);
    GlobalsDecodeBack(esc, t.globals, lib, t.variables, t.globals.keys);
    RulesDecodeBack(esc, t.rules, lib, t.variables);
    var g := GlobalEntries(esc, t.globals, lib, t.variables, t.globals.keys);
    var rs := RulesEntries(esc, t.rules, lib, t.variables);
    DecodedAppend(g, rs);
    DecodedAppend(BasicEntries(esc, t, uuid), g + rs);
  }

  // ---------------------------------------------------------------------
  // Convert: the text of the converted theme

  /** writeHeader: the preamble, then the plist element and the top dict
      opened. */
  function HeaderText(): string {
    Join(Preamble) + (Render(Open(0, PlistTag)) + "\n") + (Render(Open(1, DictTag)) + "\n")
  }

  /** writeFooter: the top dict and the plist element closed. */
  function FooterText(): string {
    (Render(Close(1, DictTag)) + "\n") + (Render(Close(0, PlistTag)) + "\n")
  }

  /** The preamble followed by the document's lines, written with the given
      escape. A panic while resolving a value ends the conversion without
      text. */
  function ConvertWith(esc: Escaper, t: Theme, lib: ColorLibrary, uuid: string): (r: Outcome<string>)
    ensures r.Ok? <==> ThemeResolves(t, lib)
    ensures r.Ok? ==> HasPrefix(r.value, Join(Preamble))
  {
    var doc :- Document(esc, t, lib, uuid);
    PrefixKept(Join(Preamble), Join(RenderAll(doc)));
    Ok(Join(Preamble) + Join(RenderAll(doc)))
  }

  /** Convert, with converter.go's escape as written. */
  function Convert(t: Theme, lib: ColorLibrary, uuid: string): (r: Outcome<string>)
    ensures r.Ok? <==> ThemeResolves(t, lib)
    ensures r.Ok? ==> HasPrefix(r.value, Join(Preamble))
  {
    ConvertWith(Escape, t, lib, uuid)
  }

  /** The converter with the corrected escape, which replaces '&' first. */
  function ConvertFixed(t: Theme, lib: ColorLibrary, uuid: string): (r: Outcome<string>)
    ensures r.Ok? <==> ThemeResolves(t, lib)
    ensures r.Ok? ==> HasPrefix(r.value, Join(Preamble))
  {
    ConvertWith(EscapeAmpFirst, t, lib, uuid)
  }

  lemma PrefixKept(p: string, x: string)
    ensures HasPrefix(p + x, p)
  {
    assert (p + x)[..|p|] == p;
  }

  /** The text of a document framed by the plist element and the top dict
      is the header, the framed lines and the footer. */
  lemma FrameText(x: seq<Line>)
    ensures Join(Preamble) + Join(RenderAll(Wrapped(0, PlistTag, Wrapped(1, DictTag, x))))
      == HeaderText() + Join(RenderAll(x)) + FooterText()
  {
    var inner := Wrapped(1, DictTag, x);
    WrappedText(0, PlistTag, inner);
    WrappedText(1, DictTag, x);
    FrameAssoc(Join(Preamble), Render(Open(0, PlistTag)) + "\n", Render(Open(1, DictTag)) + "\n",
      Join(RenderAll(x)), Render(Close(1, DictTag)) + "\n", Render(Close(0, PlistTag)) + "\n");
  }

  lemma FrameAssoc(p: string, o0: string, o1: string, x: string, c1: string, c0: string)
    ensures p + (o0 + (o1 + x + c1) + c0) == p + o0 + o1 + x + (c1 + c0)
  {
  }

  /** The converted text is the header, the basic info and the body, and the
      footer, in that order. */
  lemma ConvertFrame(esc: Escaper, t: Theme, lib: ColorLibrary, uuid: string)
    requires ThemeResolves(t, lib)
    ensures ConvertWith(esc, t, lib, uuid).value
      == HeaderText() + Join(RenderAll(BasicInfo(esc, t, uuid) + Body(esc, t, lib).value)) + FooterText()
  {
    FrameText(BasicInfo(esc, t, uuid) + Body(esc, t, lib).value);
  }

  /** A reader of the converted text: checks the preamble, then reads one
      line per newline-ended line. */
  function ReadDocument(text: string): Option<seq<Line>> {
    var pre := Join(Preamble);
    if HasPrefix(text, pre) then ReadLines(SplitLines(text[|pre|..])) else None
  }

  /** The reader gives back any lines written after the preamble, when none
      of their texts spans lines. */
  lemma ReadWritten(doc: seq<Line>)
    requires SingleLineTexts(doc)
    ensures ReadDocument(Join(Preamble) + Join(RenderAll(doc))) == Some(doc)
  {
    var pre := Join(Preamble);
    var text := pre + Join(RenderAll(doc));
    PrefixKept(pre, Join(RenderAll(doc)));
    assert text[|pre|..] == Join(RenderAll(doc));
    RenderAllSingleLine(doc);
    SplitJoin(RenderAll(doc));
    ReadRenderAll(doc);
  }

  /** Reading the converted text gives back the document, hence its nesting
      and its escaped key/string pairs, when no written key or value spans
      lines. */
  lemma ConvertReadsBack(esc: Escaper, t: Theme, lib: ColorLibrary, uuid: string)
    requires ThemeResolves(t, lib)
    requires SingleLineTexts(Document(esc, t, lib, uuid).value)
    ensures ReadDocument(ConvertWith(esc, t, lib, uuid).value) == Some(Document(esc, t, lib, uuid).value)
    ensures Balanced(ReadDocument(ConvertWith(esc, t, lib, uuid).value).value)
    ensures Entries(ReadDocument(ConvertWith(esc, t, lib, uuid).value).value) == DocumentEntries(esc, t, lib, uuid)
  {
    ReadWritten(Document(esc, t, lib, uuid).value);
  }

  /** The corrected converter: a reader of its text, after decoding the
      entities, finds every pair of the theme exactly as it was resolved. */
  lemma ConvertFixedDecodesBack(t: Theme, lib: ColorLibrary, uuid: string)
    requires ThemeResolves(t, lib)
    requires SingleLineTexts(Document(EscapeAmpFirst, t, lib, uuid).value)
    ensures ReadDocument(ConvertFixed(t, lib, uuid).value).Some?
    ensures Decoded(Entries(ReadDocument(ConvertFixed(t, lib, uuid).value).value))
      == DocumentEntries(Verbatim, t, lib, uuid)
  {
    ConvertReadsBack(EscapeAmpFirst, t, lib, uuid);
    KeysKept();
    forall s ensures ReadsBack(EscapeAmpFirst)(s) {
      EscapeAmpFirstReversible(s);
    }
    TextsOkAll(ReadsBack(EscapeAmpFirst), t, lib, uuid);
    DocumentDecodesBack(EscapeAmpFirst, t, lib, uuid);
  }

  /** detheme's converter: the same holds only when no written text has an
      apostrophe or a quote. */
  lemma ConvertDecodesBack(t: Theme, lib: ColorLibrary, uuid: string)
    requires ThemeResolves(t, lib)
    requires SingleLineTexts(Document(Escape, t, lib, uuid).value)
    requires TextsOk(QuoteFree, t, lib, uuid)
    ensures ReadDocument(Convert(t, lib, uuid).value).Some?
    ensures Decoded(Entries(ReadDocument(Convert(t, lib, uuid).value).value))
      == DocumentEntries(Verbatim, t, lib, uuid)
  {
    ConvertReadsBack(Escape, t, lib, uuid);
    KeysKept();
    forall s | QuoteFree(s) ensures ReadsBack(Escape)(s) {
      EscapeReversibleIff(s);
    }
    TextsOkWeaken(QuoteFree, ReadsBack(Escape), t, lib, uuid);
    DocumentDecodesBack(Escape, t, lib, uuid);
  }

  /** A theme named with an apostrophe is not read back by detheme's
      converter: the reader finds the text `&apos;` in its place. */
  lemma ApostropheNameMisread(t: Theme, lib: ColorLibrary, uuid: string)
    requires t.name == "'"
    ensures Decoded(DocumentEntries(Escape, t, lib, uuid))[0] == Entry(2, NameKey, "&apos;")
  {
    KeysKept();
    KeysPlain();
    UnescapeNoAmp(NameKey);
    EscapeNotReversible();
  }
}
