# detheme core, modelled in Dafny

detheme converts a Sublime Text colour scheme (`.sublime-color-scheme`, JSON) into a
TextMate theme (`.tmTheme`, an XML property list). This project models the two
packages that do the work:

- **theme**: the theme and rule records; the order-keeping `Map` of global settings
  that `Map.UnmarshalJSON` fills from the JSON token stream; and `Theme.eval`, which
  resolves a raw value. The stages run in a fixed order. `var(NAME)` references are
  replaced by `replaceVariables`. The colour notations are converted by
  `convertColorToHex`, `convertRGBToHex`, `convertRGBAToHex`, `convertHSLToHex` and
  `convertHSLAToHex`. Three- and four-digit short hex is expanded at the end.
- **converter**: `Convert` and its writers. `writeHeader`, `writeBasicInfo`,
  `writeBody`, `writeRule`, `writeFooter` and `writeNode` emit the property list line
  by line, and `escape` protects keys and values.

Modules, in dependency order:

| module | file | what it holds |
|---|---|---|
| `Results` | results.dfy | `Option`, and `Outcome`: a value, or the panic that unwinds the conversion |
| `GoStrings` | gostrings.dfy | Go's `strings.HasPrefix`, `Contains` and `ReplaceAll`, including the empty-pattern case |
| `Globals` | globals.dfy | the token loop of `Map.UnmarshalJSON`, and what it does to keys and data |
| `Resolver` | resolver.dfy | the `var(...)` matcher, `replaceVariables`, the gated colour stages, the `rgb` panic, short hex, and `eval` |
| `Themes` | theme.dfy | `Theme`, `Rule`, `Map.Get` and the four rule getters |
| `Escaping` | escaping.dfy | `escape` as written, the corrected escape, an XML unescape that is the corrected escape's inverse, and exactly which texts the escape as written lets a reader recover |
| `Plist` | plist.dfy | the lines of a property list, their rendering with two-space indentation, and a reader for them. The reader covers the element nesting and the key/string pairs |
| `Converter` | converter.dfy | `Convert` and every writer, taking the escape as a parameter, with reference definitions of the pairs a reader of the output sees |

How the model is built:

- A document is a sequence of `Line`s. A line is an opening tag, a closing tag, a
  `<key>` or a `<string>`, each with its depth.
- `Render` is the one place that turns a line into text. It writes
  `strings.Repeat("  ", depth)` and then the element, and `Join` adds the newline
  that `fmt.Fprintln` or `Fprintf` writes.
- Every writer's contract is stated against an independent reference:
  - `Entries`: the key/string pairs in document order;
  - `Level` and `Balanced`: element nesting;
  - `KeysAt`: which keys sit in which dict;
  - `Paired`: no stray line. Every key line is followed at its depth by its
    string or by the container it names, and every string line follows its key.
    With `Entries`, this pins a run of key and string lines down exactly
    (`PairedFlatLines`);
  - `ReadDocument`: a reader that parses the text back into lines.
- A Go runtime panic becomes `Panic(reason)`, and every writer propagates it with
  `:-`. In Go, `Convert` would not return at all.
- `writeNode` escapes through a function it is given (`Escaper`). `Convert` passes
  `escape` as written in converter/converter.go:127-135 (`Escaping.Escape`).
  `ConvertFixed` passes the corrected escape (`Escaping.EscapeAmpFirst`). Both are the
  one generic writer, `ConvertWith`.

Two behaviours of the code matter for what the model proves:

- **The rgb stage never converts.** `rgbRegex` (theme/theme.go:54) has no capture
  group, so `FindStringSubmatch` returns the match alone. `convertRGBToHex` then
  reads `foundColor[1]` (theme/theme.go:250-251). Reading index 1 of a one-element
  slice panics with `index out of range [1] with length 1`. So a value such as
  `rgb(255, 0, 0)` does not become `#ff0000`: the stage panics as soon as the pattern
  matches. `ConvertRgb` models the loop with the index reads, and `RgbPanics` shows
  the panic for every such notation.
- **The end of the variable loop.** The loop stops once `var\(([^)]+)\)` no longer
  matches (theme/theme.go:195). For example, `var()` and an unclosed `var(` are left
  in place and end the loop.

## Model

| member | source | states |
|---|---|---|
| `GoStrings.ReplaceAll` | theme/theme.go:206 | replacing a non-empty pattern that does not occur leaves the text unchanged |
| `GoStrings.ReplaceAllWhole` | theme/theme.go:206 | a text that is exactly the pattern becomes exactly the replacement |
| `GoStrings.ReplaceAllSplit` | theme/theme.go:206 | when the first occurrence of the pattern in `a + p + b` is the `p` between them, the result is ReplaceAll of `a`, the replacement, then ReplaceAll of `b` |
| `GoStrings.ReplaceAllRemoves` | theme/theme.go:206 | no occurrence of the pattern is left when the replacement lacks the pattern's last character and ends in a character found nowhere else in the pattern |
| `Globals.Run` | theme/theme.go:92-119 | the token loop never rewrites keys it has already appended, and it keeps the key list and the data map in agreement (every listed key has data, every data key is listed) |
| `Globals.Decode` | theme/theme.go:85-122 | decoding into a fresh `Map` gives data for each of its keys and lists every key it has data for |
| `Globals.Unmarshal` | theme/theme.go:85-122 | a call on a map that already holds keys resets the data to what this call reads but appends to the key list: the old keys stay, followed by the keys this call reads |
| `Globals.UnmarshalFresh` | theme/theme.go:85-122 | on a map with no keys yet, the call reads the same as a fresh decode, whatever data the map held |
| `Globals.UnmarshalAgreesIff` | theme/theme.go:86-116 | after the call, keys and data agree exactly when every key listed before the call is read again by it |
| `Globals.UnmarshalRepeated` | theme/theme.go:86-116 | a globals member `{"a":"1"}` followed by a second one `{"b":"2"}` leaves keys `a`, `b` and data only for `b`, so `a` is listed without data |
| `Globals.RunIsPairing` | theme/theme.go:92-119 | from any state, the loop appends the keys of the pairs formed by reading the string tokens alternately as key and value, and stores the pairs into the data in order |
| `Globals.DecodeIsPairing` | theme/theme.go:85-122 | `UnmarshalJSON` equals the reference: pair the string tokens in order; the keys are the first components, and the data keeps the last value of each key |
| `Globals.DecodeSkipsOther` | theme/theme.go:103-108 | a token that is not a string (delimiter, number, boolean, null) changes nothing |
| `Globals.RunAppend` | theme/theme.go:92-119 | running the loop over two token runs one after the other is running it over their concatenation |
| `Globals.DecodeAppendPair` | theme/theme.go:110-118 | with no key pending, a non-empty key string and a value string append the key and set its data, leaving nothing pending |
| `Globals.DecodeEmptyKey` | theme/theme.go:110-113 | an empty string read in key position leaves the loop waiting for a key, so it is lost without trace |
| `Globals.DecodeDropsTrailingKey` | theme/theme.go:110-113 | a key string with no value after it is dropped |
| `Globals.DecodeDuplicateKey` | theme/theme.go:115-116 | a key given twice is listed twice, and its data is the later value |
| `Resolver.CloseParen` | theme/theme.go:58 | the index found is the first `)` of the text, and there is none when no index is found |
| `Resolver.VarAt` | theme/theme.go:58 | a match at the start of a text is a valid name (non-empty, no `)`) whose reference text starts the text |
| `Resolver.FindVar` | theme/theme.go:58 | the leftmost match names a valid variable whose reference occurs in the text |
| `Resolver.FindVarLeftmost` | theme/theme.go:198 | the match found is the reference at the first position where one starts, and with no match no reference starts anywhere |
| `Resolver.VarAtText` | theme/theme.go:58 | a reference to a valid name, whatever follows it, matches with exactly that name |
| `Resolver.FindVarNone` | theme/theme.go:195-197 | the pattern finds nothing exactly when no reference to any valid name occurs in the text |
| `Resolver.NoCloseNoVar` | theme/theme.go:58 | a text without `)` holds no reference |
| `Resolver.Rounds` | theme/theme.go:194-207 | a replace loop whose pattern does not match returns the text unchanged |
| `Resolver.RoundsSplit` | theme/theme.go:194 | a + b rounds of a replace loop are a rounds followed by b rounds |
| `Resolver.ReplaceVariables` | theme/theme.go:193-210 | a text with no reference is returned unchanged |
| `Resolver.VarRoundsStable` | theme/theme.go:195-197 | once no reference is left, any number of further rounds changes nothing |
| `Resolver.SelfReference` | theme/theme.go:194-207 | a variable defined as a reference to itself stays unresolved for any number of rounds; only the cap of 16 ends the loop |
| `Resolver.RoundsFixedPoint` | theme/theme.go:194-207 | a text that one round leaves as it is stays so for any number of rounds |
| `Resolver.KnownVariable` | theme/theme.go:199-206 | a reference to a defined variable whose value holds no reference resolves to that value |
| `Resolver.UnknownVarFree` | theme/theme.go:203 | the placeholder for an undefined variable holds no `)`, so a later round never matches it as a reference |
| `Resolver.ReplaceTrailingRef` | theme/theme.go:206 | when the text before a final reference holds no `)`, ReplaceAll of that reference replaces only the final one |
| `Resolver.SingleRound` | theme/theme.go:194-207 | when the first round leaves no reference, the result is that round's ReplaceAll |
| `Resolver.UnknownVariable` | theme/theme.go:200-206 | the same reference to an undefined name twice, with text free of `)` between, resolves to the placeholder `[UNKNOWN-VAR:NAME]` twice, in one round |
| `Resolver.UnknownRoundRemoves` | theme/theme.go:198-206 | for any text whose leftmost reference names an undefined variable, the round replaces that reference by its placeholder and leaves no occurrence of it |
| `Resolver.UnknownRoundStraddle` | theme/theme.go:198-206 | in `var(x]var(x)var(x)` the round on the name `x]var(x` leaves a new occurrence of that reference, made of the placeholder's end and the text after it |
| `Resolver.PathRounds` | theme/theme.go:194-207 | when each text of a sequence is what one round makes of the one before, n rounds lead from the first text to the n-th |
| `Resolver.ChainRounds` | theme/theme.go:194-207 | in a chain of variables each defined as a reference to the next, n rounds turn a reference to the first name into a reference to the n-th |
| `Resolver.ChainResolves` | theme/theme.go:194-207 | a chain whose last name looks up to a text without references resolves to that text after as many rounds as it has names, and stays so |
| `Resolver.ChainToUnknown` | theme/theme.go:194-207 | a chain of up to 16 names whose last name is undefined resolves to that name's placeholder within the cap |
| `Resolver.LinkToUnknown` | theme/theme.go:199-206 | a variable defined as a reference to an undefined variable resolves to the undefined one's placeholder |
| `Resolver.ChainPastCap` | theme/theme.go:194 | a chain of more than 16 names is cut off by the cap: the result is the reference to the name 16 links on |
| `Resolver.VarMissingIsPlaceholder` | theme/theme.go:200-204 | an undefined reference alone resolves to its placeholder, and it passes the `var(` gate |
| `Resolver.RgbMatchesContains` | theme/theme.go:162-164 | the rgb pattern matches only in text that passes the `rgb(` gate |
| `Resolver.FindRgb` | theme/theme.go:245-250 | a match is found exactly when the pattern matches somewhere; the match starts with `rgb(` and occurs in the text |
| `Resolver.RgbRound` | theme/theme.go:250-260 | with fewer than four entries in the submatch list, the round panics at the first missing index |
| `Resolver.ConvertRgb` | theme/theme.go:244-263 | the loop panics exactly when it has a round to run and the pattern matches somewhere, with the message for index 1 of a one-element slice; otherwise it returns the text unchanged |
| `Resolver.RgbPanicMessage` | theme/theme.go:251 | the panic reads `runtime error: index out of range [1] with length 1` |
| `Resolver.RgbPanics` | theme/theme.go:54 | every `rgb(R,G,B)` with decimal components and any run of spaces after each comma, wherever it sits in the text, makes the stage panic |
| `Resolver.SkipSpaceRun` | theme/theme.go:54 | ` *` consumes a whole run of spaces before a number |
| `Resolver.NumberSep` | theme/theme.go:54 | `\d+` followed by its separator consumes exactly the digits and the separator |
| `Resolver.Doubled` | theme/theme.go:178-185 | the doubled text is twice as long, and its character i is the source's character i / 2 |
| `Resolver.ExpandShortHex` | theme/theme.go:178-185 | a `#` followed by 3 or 4 characters (bytes in the source) gets every character after the `#` doubled; every other text is returned as is |
| `Resolver.ExpandShortHexIdempotent` | theme/theme.go:178-185 | expanding short hex twice equals expanding it once; the expanded 7-character text does not trigger the 5-character rule |
| `Resolver.Gated` | theme/theme.go:158-176 | a colour stage whose trigger text does not occur leaves the value unchanged |
| `Resolver.EvalPlain` | theme/theme.go:153-188 | a value containing no trigger text only gets its short hex expanded |
| `Resolver.EvalAfterVariables` | theme/theme.go:153-188 | when the resolved variables leave no trigger text, eval is short-hex expansion of replaceVariables |
| `Resolver.NoParenNoTrigger` | theme/theme.go:154-176 | a value without `(` passes none of the six stage gates |
| `Resolver.EvalUnchanged` | theme/theme.go:153-188 | a value with no trigger text and no short-hex shape is returned unchanged |
| `Resolver.EvalPanicsIffRgb` | theme/theme.go:162-164 | for a value without `var(` and `color(`, eval panics exactly when the rgb pattern matches |
| `Resolver.EvalPanicSource` | theme/theme.go:153-164 | eval can panic only on a value that holds `var(`, `color(` or `rgb(` |
| `Resolver.ShortHexFff` | theme/theme.go:178-180 | `#fff` expands to `#ffffff` |
| `Resolver.EvalShortHexVariable` | theme/theme.go:153-188 | with `X` defined as `#fff`, `var(X)` resolves to `#ffffff`: variables first, short hex last |
| `Resolver.EvalMissingVariable` | theme/theme.go:200-204 | a reference to an undefined name without `(` evaluates to `[UNKNOWN-VAR:NAME]`, and no later stage changes it |
| `Resolver.PlaceholderPlain` | theme/theme.go:203 | the placeholder triggers no colour stage and is not short hex |
| `Themes.EvalEmpty` | theme/theme.go:153-188 | the empty value evaluates to the empty text |
| `Themes.Get` | theme/theme.go:124-126 | a missing key reads as the empty text, and a stored value with nothing to resolve is returned unchanged |
| `Themes.GetFontStyle` | theme/theme.go:131-133 | an empty font style evaluates to the empty text, one that no stage touches is returned as it is, and only one holding `var(`, `color(` or `rgb(` can panic |
| `Themes.GetForeground` | theme/theme.go:136-138 | the same for the foreground |
| `Themes.GetBackground` | theme/theme.go:141-143 | the same for the background |
| `Themes.GetSelectionForeground` | theme/theme.go:146-148 | the same for the selection foreground |
| `Themes.RuleAgreesWithGlobals` | theme/theme.go:124-138 | a rule field and a global with the same raw text resolve to the same outcome |
| `Escaping.ReplaceCharIsSubst` | converter/converter.go:128-132 | ReplaceAll of a one-character pattern replaces each occurrence of that character, character by character |
| `Escaping.Escape` | converter/converter.go:127-135 | the escape as written leaves no `'`, `"`, `<` or `>` in its output and returns text without special characters unchanged |
| `Escaping.EscapeEntities` | converter/converter.go:127-135 | every `&` in the output of the escape as written starts `&amp;`, `&lt;` or `&gt;` |
| `Escaping.EscapeIsCharwise` | converter/converter.go:127-135 | the five ReplaceAll passes in their written order equal one per-character substitution, in which `'` becomes `&amp;apos;` and `"` becomes `&amp;quot;` |
| `Escaping.DoubleEscapes` | converter/converter.go:128-130 | the escape as written turns `'` into `&amp;apos;` and `"` into `&amp;quot;` |
| `Escaping.DoubleEscapesInName` | converter/converter.go:128-130 | in any name, an apostrophe between plain parts is written as `&amp;apos;` |
| `Escaping.EscapeNotReversible` | converter/converter.go:128-130 | an XML reader of the escaped apostrophe gets the six characters `&apos;`, not `'` |
| `Escaping.EscapeReversibleIff` | converter/converter.go:127-135 | an XML reader recovers a text from the escape as written exactly when the text has no `'` and no `"` |
| `Escaping.EscapesAgree` | converter/converter.go:127-135 | the escape as written and the corrected one agree on a text exactly when it has no `'` and no `"` |
| `Escaping.CharwiseLength` | converter/converter.go:128-130 | the escape as written is four characters longer than the corrected one for every `'` and `"` |
| `Escaping.EscapeAmpFirst` | converter/converter.go:127-135 | the corrected escape leaves no `'`, `"`, `<` or `>` and returns text without special characters unchanged |
| `Escaping.EscapeAmpFirstIsCharwise` | converter/converter.go:127-135 | the corrected five passes equal the per-character substitution of each special character by its own entity |
| `Escaping.EscapeAmpFirstReversible` | converter/converter.go:127-135 | an XML reader recovers every string from its corrected escape |
| `Plist.Indent` | converter/converter.go:118 | the indentation of depth n is 2n spaces |
| `Plist.RenderAll` | converter/converter.go:123-124 | each line is rendered on its own, in order |
| `Plist.WrappedText` | converter/converter.go:90-113 | a block framed by an opening and a closing tag is written as the opening line, the block's text, and the closing line |
| `Plist.ReadRender` | converter/converter.go:123-124 | every rendered line, whatever its text, reads back as the same line at the same depth |
| `Plist.ReadRenderAll` | converter/converter.go:117-125 | a run of rendered lines reads back as the same lines |
| `Plist.SplitJoin` | converter/converter.go:123-124 | cutting the written text at its newlines gives back the written lines, when none of them holds a newline |
| `Plist.RenderAllSingleLine` | converter/converter.go:117-125 | lines whose keys and values hold no newline render to text lines without newlines |
| `Plist.Wrap` | converter/converter.go:90-113 | opening a tag, writing a block balanced one level deeper, and closing it keeps the nesting balanced |
| `Plist.EntriesAppend` | converter/converter.go:117-125 | the key/string pairs of two whole runs of lines are those of the first run followed by those of the second |
| `Converter.Node` | converter/converter.go:117-125 | writeNode writes exactly two lines, a key line and the string line of its value, with no stray line; they form one key/string pair, the escape of the key and of the value, at its depth; the nesting is unchanged |
| `Plist.PairedAppend` | converter/converter.go:117-125 | two runs without stray lines, one after the other, have no stray lines |
| `Plist.PairedWrapped` | converter/converter.go:90-113 | a container opened and closed around a run without stray lines has none |
| `Plist.PairedKeyedContainer` | converter/converter.go:67-71 | a key that names a container is directly followed, at its depth, by that container's opening line |
| `Plist.PairedFlatLines` | converter/converter.go:117-125 | a run of key and string lines with no stray line is exactly the two lines of each of its pairs, in order: nothing is added, dropped or reordered |
| `Plist.PairLinesPaired` | converter/converter.go:117-125 | conversely, the two lines of each pair in order have no stray line and read back as those pairs |
| `Converter.KeysKept` | converter/converter.go:56-109 | the fixed keys and the `sRGB` value the converter writes are unchanged by either escape |
| `Converter.BasicInfo` | converter/converter.go:55-64 | the basic info is exactly the lines of the pairs name, then author exactly when it is set, then colorSpaceName = sRGB, then uuid, all at depth 2, and nothing else |
| `Converter.GlobalNodes` | converter/converter.go:74-76 | the globals loop writes exactly the lines of one pair per listed key, in list order, with the key's resolved value, and succeeds exactly when every listed key resolves |
| `Converter.GlobalWithoutData` | converter/converter.go:74-76 | a listed key that has no data is still written, with the empty string as its value |
| `Converter.RepeatedGlobalsWrittenEmpty` | converter/converter.go:74-76 | for the globals of a theme whose globals member appears twice, the first member's key is written first, with an empty value |
| `Converter.Field` | converter/converter.go:96-110 | a settings field writes exactly the lines of a pair when its raw text is set, and nothing when it is not |
| `Converter.RuleLines` | converter/converter.go:89-114 | writeRule writes the name and scope pairs, then the set fields in order, in a dict at depth 3, with no stray line, and succeeds exactly when every set field resolves |
| `Converter.RuleFramePaired` | converter/converter.go:89-114 | the rule's dict has no stray line: its settings key names the settings dict |
| `Converter.FieldKeys` | converter/converter.go:96-110 | a field puts its key into the settings dict exactly when its raw text is set |
| `Converter.RuleSettingsKeys` | converter/converter.go:89-114 | a rule's dict holds exactly the keys name and scope, and its settings dict holds exactly the set fields' keys, in order |
| `Converter.RuleNodes` | converter/converter.go:81-83 | the rules loop writes each rule's pairs in rule order, with no stray line, and succeeds exactly when every rule resolves |
| `Converter.BodyPaired` | converter/converter.go:67-86 | the settings array has no stray line: both settings keys name their containers |
| `Converter.Body` | converter/converter.go:67-86 | the body holds the globals' pairs and then the rules' pairs, with no stray line, and it is balanced at depth 2 |
| `Converter.DocumentPaired` | converter/converter.go:22-31 | the plist and top dict around the basic info and the body add no stray line |
| `Converter.Document` | converter/converter.go:22-31 | the whole document is balanced and has no stray line, and its pairs are basic info, globals and rules in that order |
| `Converter.GlobalsDecodeBack` | converter/converter.go:74-76 | when the reader can undo the escape on every listed key and its resolved value, it recovers the pairs exactly as they would be written unescaped |
| `Converter.BasicDecodesBack` | converter/converter.go:55-64 | the same for the name, the author when set, sRGB and the UUID |
| `Converter.RuleDecodesBack` | converter/converter.go:89-114 | the same for a rule's name, scope and set fields with their resolved values |
| `Converter.RulesDecodeBack` | converter/converter.go:81-83 | the same for every rule, in rule order |
| `Converter.DocumentDecodesBack` | converter/converter.go:22-31 | the same for every pair of the document |
| `Converter.ConvertWith` | converter/converter.go:22-31 | conversion with any escape succeeds exactly when every global and every rule field resolves without a panic, and its text starts with the fixed preamble |
| `Converter.Convert` | converter/converter.go:22-31 | the same for the converter with `escape` as written |
| `Converter.ConvertFixed` | converter/converter.go:22-31 | the same for the converter with the corrected escape |
| `Converter.ConvertFrame` | converter/converter.go:22-52 | the text is writeHeader's lines, then the basic info and the body, then writeFooter's lines |
| `Converter.ConvertReadsBack` | converter/converter.go:22-31 | reading the converted text back gives the document, so its nesting is balanced and its pairs are the escaped reference pairs |
| `Converter.ConvertFixedDecodesBack` | converter/converter.go:22-31 | with the corrected escape, a reader of the text who decodes the entities finds every pair of the theme exactly as resolved, for every theme that resolves and has no text spanning lines |
| `Converter.ConvertDecodesBack` | converter/converter.go:22-31 | with `escape` as written, the same holds when no written text has `'` or `"` |
| `Converter.ApostropheNameMisread` | converter/converter.go:56 | with `escape` as written, a theme named `'` is read back with the name `&apos;` |

## Left out

- The command-line front end (`cli/cli.go`), file reading and writing, and `theme.Read` are I/O.
- JSON tokenizing and its errors: `Globals.Decode` takes the token stream that `json.Decoder.Token` would produce. A malformed document, which `UnmarshalJSON` reports as an error, is not modelled.
- Colour arithmetic: parsing, HSL to RGB conversion, alpha and hex output happen in the colour library. Each of the `color`, `rgba`, `hsl` and `hsla` stages is a matcher parameter (`ColorLibrary`). The gating, the 16-round loop and the ReplaceAll around each stage are modelled. The `[COLOR-VALUE]` and `[COLOR-ALPHA]` replacements belong to the matcher; the latter is unreachable in the code.
- The rgb stage's `strconv.Atoi`, `uint8` conversion and hex rendering are the parameter `ColorLibrary.rgb`. No round ever reaches it, because the index read before it panics.
- `Resolver.FindRgb`: its contract does not say that the match is the leftmost one. The stage panics on any match, so which match is found does not change the outcome.
- `Resolver.UnknownRoundRemoves`: requires that the undefined name has no `]`. `Resolver.UnknownRoundStraddle` shows a name with `]` for which the placeholder and the text after it spell the reference again.
- UUID generation: the UUID is a parameter of `Convert`.
- How a second `globals` member reaches `Map.UnmarshalJSON` (encoding/json matching field names without regard to case and decoding into the same field again) is not modelled. `Globals.Unmarshal` takes the map as it stands before the call, and a `Theme` takes its globals map as given.
- Byte lengths: Go's `len` counts bytes and slices bytes, while the model counts and slices characters.
- `Resolver.ExpandShortHex`: agrees with theme/theme.go:178-185 only on ASCII text. A non-ASCII value of 4 or 5 bytes, such as `#éa`, is rewritten byte by byte by Go but left as it is by the model. A value such as `#éab` has its characters doubled by the model where Go doubles bytes.
- `Convert`'s error result: it is always nil in the code. A panic is `Panic` in the model rather than an unwinding.
- `Resolver.EvalMissingVariable`: requires that the name has no `(`. The `color`, `rgba`, `hsl` and `hsla` stages are matcher parameters with no contract, so in the model a placeholder that holds one of their trigger texts, such as the one for the name `hsl(`, could be changed by them. In the code each colour pattern (theme/theme.go:53-57) ends in `\)`, which the placeholder does not hold, so no stage changes it.
- `Resolver.Eval`: has no contract of its own. What it promises is stated by the lemmas about it (`EvalPlain`, `EvalAfterVariables`, `EvalUnchanged`, `EvalPanicsIffRgb`, `EvalShortHexVariable`, `EvalMissingVariable`), because a general contract would have to restate the six stages.
- `Converter.ConvertReadsBack`: requires that no key or value spans lines. The reader works line by line, although the converter writes such text unchanged.
- `Converter.ConvertDecodesBack`: requires that no written text has `'` or `"`. The escape as written cannot be undone on any other text (`Escaping.EscapeReversibleIff`).

## Findings

| source | as written | input that shows it | evidently intended | confidence | as-written member | corrected member |
|---|---|---|---|---|---|---|
| converter/converter.go:128-130 | `escape` replaces `'` and `"` by their entities before it replaces `&`, so the `&` of those entities is escaped again | a rule named `O'Brien` is written as `O&amp;apos;Brien`, which an XML reader reads as `O&apos;Brien` | replace `&` first, so `'` is written as `&apos;` and reads back as `'` | not executed | `Escaping.DoubleEscapes` (with `Escaping.EscapeNotReversible`, `Escaping.DoubleEscapesInName` and, for the whole converter, `Converter.Convert` with `Converter.ApostropheNameMisread`) | `Escaping.EscapeAmpFirst`, with the round trip proved by `Escaping.EscapeAmpFirstReversible`; for the whole converter, `Converter.ConvertFixed` with `Converter.ConvertFixedDecodesBack` |

`Converter.Convert` writes with the escape as written, as converter/converter.go:120-121
does. `Converter.ConvertFixed` is the same converter with the corrected escape, and the
decode-back property holds for it on every theme that resolves and has no text spanning
lines. For `Converter.Convert` it holds
only on themes whose written texts have no `'` or `"`.
