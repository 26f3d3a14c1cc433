/** The lines of the property-list text the converter writes: each line is
    an indentation of two spaces per level followed by one element, and the
    document is the lines joined, each ended by a newline. A line reader and
    a nesting check give the writer something independent to be held to. */
module Plist {
  import opened Results
  import opened GoStrings

  /** The three container elements the converter opens and closes. */
  datatype Tag = PlistTag | DictTag | ArrayTag

  /** One written line; `depth` counts indentation levels. */
  datatype Line =
    | Open(depth: nat, tag: Tag)
    | Close(depth: nat, tag: Tag)
    | KeyLine(depth: nat, text: string)
    | StringLine(depth: nat, text: string)

  const PlistOpen := "<plist version=\"1.0\">"
  const DictOpen := "<dict>"
  const ArrayOpen := "<array>"
  const PlistClose := "</plist>"
  const DictClose := "</dict>"
  const ArrayClose := "</array>"

  function OpenText(t: Tag): string {
    match t
    case PlistTag => PlistOpen
    case DictTag => DictOpen
    case ArrayTag => ArrayOpen
  }

  function CloseText(t: Tag): string {
    match t
    case PlistTag => PlistClose
    case DictTag => DictClose
    case ArrayTag => ArrayClose
  }

  /** strings.Repeat("  ", n) */
  function Indent(n: nat): (r: string)
    ensures |r| == 2 * n
    ensures forall i :: 0 <= i < |r| ==> r[i] == ' '
  {
    if n == 0 then "" else "  " + Indent(n - 1)
  }

  /** The element text of a line, after its indentation. */
  function Element(l: Line): string {
    match l
    case Open(_, t) => OpenText(t)
    case Close(_, t) => CloseText(t)
    case KeyLine(_, x) => "<key>" + x + "</key>"
    case StringLine(_, x) => "<string>" + x + "</string>"
  }

  function Render(l: Line): string {
    Indent(l.depth) + Element(l)
  }

  function RenderAll(ls: seq<Line>): (r: seq<string>)
    ensures |r| == |ls|
    ensures forall i :: 0 <= i < |ls| ==> r[i] == Render(ls[i])
  {
    if |ls| == 0 then [] else [Render(ls[0])] + RenderAll(ls[1..])
  }

  lemma RenderAllAppend(a: seq<Line>, b: seq<Line>)
    ensures RenderAll(a + b) == RenderAll(a) + RenderAll(b)
  {
    var r, ra, rb := RenderAll(a + b), RenderAll(a), RenderAll(b);
    forall i | 0 <= i < |r| ensures r[i] == (ra + rb)[i] {
      if i < |a| {
        assert (a + b)[i] == a[i];
      } else {
        assert (a + b)[i] == b[i - |a|];
      }
    }
  }

  /** The text of a wrapped run: the open line, the body, the close line. */
  lemma WrappedText(d: nat, t: Tag, body: seq<Line>)
    ensures Join(RenderAll(Wrapped(d, t, body)))
      == Render(Open(d, t)) + "\n" + Join(RenderAll(body)) + (Render(Close(d, t)) + "\n")
  {
    RenderAllAppend([Open(d, t)] + body, [Close(d, t)]);
    RenderAllAppend([Open(d, t)], body);
    JoinAppend(RenderAll([Open(d, t)]) + RenderAll(body), RenderAll([Close(d, t)]));
    JoinAppend(RenderAll([Open(d, t)]), RenderAll(body));
    assert RenderAll([Open(d, t)]) == [Render(Open(d, t))];
    assert RenderAll([Close(d, t)]) == [Render(Close(d, t))];
    JoinOne(Render(Open(d, t)));
    JoinOne(Render(Close(d, t)));
  }

  lemma JoinOne(x: string)
    ensures Join([x]) == x + "\n"
  {
    assert [x][1..] == [];
  }

  /** No key or string written on the lines holds a newline of its own. */
  predicate SingleLineTexts(ls: seq<Line>) {
    forall i :: 0 <= i < |ls| && (ls[i].KeyLine? || ls[i].StringLine?) ==> '\n' !in ls[i].text
  }

  lemma RenderSingleLine(l: Line)
    requires (l.KeyLine? || l.StringLine?) ==> '\n' !in l.text
    ensures '\n' !in Render(l)
  {
    var ind := Indent(l.depth);
    assert '\n' !in ind by {
      forall k | 0 <= k < |ind| ensures ind[k] != '\n' { }
    }
    ElementSingleLine(l);
  }

  lemma ElementSingleLine(l: Line)
    requires (l.KeyLine? || l.StringLine?) ==> '\n' !in l.text
    ensures '\n' !in Element(l)
  {
    match l
    case Open(_, t) => TagsSingleLine(t);
    case Close(_, t) => TagsSingleLine(t);
    case KeyLine(_, x) => Bracketed("<key>", x, "</key>");
    case StringLine(_, x) => Bracketed("<string>", x, "</string>");
  }

  lemma TagsSingleLine(t: Tag)
    ensures '\n' !in OpenText(t) && '\n' !in CloseText(t)
  {
  }

  lemma Bracketed(p: string, x: string, q: string)
    requires '\n' !in p && '\n' !in x && '\n' !in q
    ensures '\n' !in p + x + q
  {
  }

  lemma RenderAllSingleLine(ls: seq<Line>)
    requires SingleLineTexts(ls)
    ensures NoNewlines(RenderAll(ls))
  {
    forall i | 0 <= i < |ls| ensures '\n' !in RenderAll(ls)[i] {
      RenderSingleLine(ls[i]);
    }
  }

  // ---------------------------------------------------------------------
  // reading a line back

  /** The number of spaces a string starts with. */
  function LeadingSpaces(s: string): (r: nat)
    ensures r <= |s|
    ensures forall i :: 0 <= i < r ==> s[i] == ' '
    ensures r < |s| ==> s[r] != ' '
    decreases |s|
  {
    if |s| > 0 && s[0] == ' ' then 1 + LeadingSpaces(s[1..]) else 0
  }

  /** Reads an element text at the given depth. */
  function ReadElement(e: string, d: nat): Option<Line> {
    if e == PlistOpen then Some(Open(d, PlistTag))
    else if e == DictOpen then Some(Open(d, DictTag))
    else if e == ArrayOpen then Some(Open(d, ArrayTag))
    else if e == PlistClose then Some(Close(d, PlistTag))
    else if e == DictClose then Some(Close(d, DictTag))
    else if e == ArrayClose then Some(Close(d, ArrayTag))
    else if HasPrefix(e, "<key>") && HasSuffix(e, "</key>") && |e| >= 11 then
      Some(KeyLine(d, e[5..|e| - 6]))
    else if HasPrefix(e, "<string>") && HasSuffix(e, "</string>") && |e| >= 17 then
      Some(StringLine(d, e[8..|e| - 9]))
    else None
  }

  /** Reads one line: an even run of spaces, then an element. */
  function ReadLine(s: string): (r: Option<Line>)
    ensures r.Some? ==> 2 * r.value.depth <= |s|
  {
    var k := LeadingSpaces(s);
    if k % 2 != 0 then None else ReadElement(s[k..], k / 2)
  }

  function ReadLines(ss: seq<string>): (r: Option<seq<Line>>)
    ensures r.Some? ==> |r.value| == |ss|
  {
    if |ss| == 0 then Some([])
    else match ReadLine(ss[0])
      case None => None
      case Some(l) =>
        match ReadLines(ss[1..])
        case None => None
        case Some(ls) => Some([l] + ls)
  }

  lemma {:induction false} IndentLeading(n: nat, e: string)
    requires |e| > 0 && e[0] != ' '
    ensures LeadingSpaces(Indent(n) + e) == 2 * n
    decreases n
  {
    if n > 0 {
      IndentLeading(n - 1, e);
      assert Indent(n) + e == [' '] + ([' '] + (Indent(n - 1) + e));
      assert (Indent(n) + e)[1..] == [' '] + (Indent(n - 1) + e);
    }
  }

  /** The key and string elements differ from the six container tags. */
  lemma KeyElementNotTag(x: string)
    ensures var e := "<key>" + x + "</key>";
      e != PlistOpen && e != DictOpen && e != ArrayOpen
      && e != PlistClose && e != DictClose && e != ArrayClose
  {
    var e := "<key>" + x + "</key>";
    assert e[1] == 'k';
    assert PlistOpen[1] == 'p' && DictOpen[1] == 'd' && ArrayOpen[1] == 'a';
    assert PlistClose[1] == '/' && DictClose[1] == '/' && ArrayClose[1] == '/';
  }

  lemma StringElementNotTag(x: string)
    ensures var e := "<string>" + x + "</string>";
      e != PlistOpen && e != DictOpen && e != ArrayOpen
      && e != PlistClose && e != DictClose && e != ArrayClose
      && !HasPrefix(e, "<key>")
  {
    var e := "<string>" + x + "</string>";
    assert e[1] == 's';
    assert PlistOpen[1] == 'p' && DictOpen[1] == 'd' && ArrayOpen[1] == 'a';
    assert PlistClose[1] == '/' && DictClose[1] == '/' && ArrayClose[1] == '/';
    assert "<key>"[1] == 'k';
  }

  lemma ReadKeyElement(x: string, d: nat)
    ensures ReadElement("<key>" + x + "</key>", d) == Some(KeyLine(d, x))
  {
    var e := "<key>" + x + "</key>";
    KeyElementNotTag(x);
    assert e[..5] == "<key>";
    assert e[|e| - 6..] == "</key>";
    assert e[5..|e| - 6] == x;
  }

  lemma ReadStringElement(x: string, d: nat)
    ensures ReadElement("<string>" + x + "</string>", d) == Some(StringLine(d, x))
  {
    var e := "<string>" + x + "</string>";
    StringElementNotTag(x);
    assert e[..8] == "<string>";
    assert e[|e| - 9..] == "</string>";
    assert e[8..|e| - 9] == x;
  }

  lemma ReadTagElements(d: nat)
    ensures ReadElement(PlistOpen, d) == Some(Open(d, PlistTag))
    ensures ReadElement(DictOpen, d) == Some(Open(d, DictTag))
    ensures ReadElement(ArrayOpen, d) == Some(Open(d, ArrayTag))
    ensures ReadElement(PlistClose, d) == Some(Close(d, PlistTag))
    ensures ReadElement(DictClose, d) == Some(Close(d, DictTag))
    ensures ReadElement(ArrayClose, d) == Some(Close(d, ArrayTag))
  {
    assert DictOpen != PlistOpen by { assert |DictOpen| != |PlistOpen|; }
    assert ArrayOpen != PlistOpen by { assert |ArrayOpen| != |PlistOpen|; }
    assert ArrayOpen != DictOpen by { assert |ArrayOpen| != |DictOpen|; }
    assert PlistClose[2] == 'p' && DictClose[2] == 'd' && ArrayClose[2] == 'a';
    assert PlistClose[1] == '/' && DictClose[1] == '/' && ArrayClose[1] == '/';
    assert PlistOpen[1] == 'p' && DictOpen[1] == 'd' && ArrayOpen[1] == 'a';
  }

  /** Every element text reads back as the line it was written from. */
  lemma ReadElementOf(l: Line)
    ensures ReadElement(Element(l), l.depth) == Some(l)
  {
    match l
    case Open(d, t) => ReadTagElements(d);
    case Close(d, t) => ReadTagElements(d);
    case KeyLine(d, x) => ReadKeyElement(x, d);
    case StringLine(d, x) => ReadStringElement(x, d);
  }

  /** Every written line reads back as itself, whatever text it holds. */
  lemma ReadRender(l: Line)
    ensures ReadLine(Render(l)) == Some(l)
  {
    var e := Element(l);
    assert e[0] == '<' by {
      match l
      case Open(_, t) =>
      case Close(_, t) =>
      case KeyLine(_, x) =>
      case StringLine(_, x) =>
    }
    IndentLeading(l.depth, e);
    assert Render(l)[2 * l.depth..] == e;
    ReadElementOf(l);
  }

  lemma {:induction false} ReadRenderAll(ls: seq<Line>)
    ensures ReadLines(RenderAll(ls)) == Some(ls)
    decreases |ls|
  {
    if |ls| > 0 {
      var ss := RenderAll(ls);
      ReadRender(ls[0]);
      ReadRenderAll(ls[1..]);
      assert ss[1..] == RenderAll(ls[1..]);
      ReadLinesCons(ss, ls[0], ls[1..]);
      assert [ls[0]] + ls[1..] == ls;
    }
  }

  lemma ReadLinesCons(ss: seq<string>, l: Line, ls: seq<Line>)
    requires |ss| > 0 && ReadLine(ss[0]) == Some(l) && ReadLines(ss[1..]) == Some(ls)
    ensures ReadLines(ss) == Some([l] + ls)
  {
  }

  // ---------------------------------------------------------------------
  // joining and splitting lines

  /** The bytes fmt.Fprintln leaves in the buffer for a run of lines. */
  function Join(ss: seq<string>): (r: string)
    ensures |ss| > 0 ==> |r| > 0 && r[|r| - 1] == '\n'
  {
    if |ss| == 0 then "" else ss[0] + "\n" + Join(ss[1..])
  }

  lemma {:induction false} JoinAppend(a: seq<string>, b: seq<string>)
    ensures Join(a + b) == Join(a) + Join(b)
    decreases |a|
  {
    if |a| == 0 {
      assert a + b == b;
    } else {
      assert (a + b)[1..] == a[1..] + b;
      JoinAppend(a[1..], b);
    }
  }

  /** The position of the first newline, if any. */
  function NewlineAt(s: string): (r: Option<nat>)
    ensures r.Some? ==> r.value < |s| && s[r.value] == '\n' && '\n' !in s[..r.value]
    ensures r.None? ==> '\n' !in s
    decreases |s|
  {
    if |s| == 0 then None
    else if s[0] == '\n' then Some(0)
    else match NewlineAt(s[1..])
      case None => None
      case Some(i) => Some(i + 1)
  }

  /** Splits newline-ended lines; text after the last newline is a final line. */
  function SplitLines(s: string): seq<string>
    decreases |s|
  {
    match NewlineAt(s)
    case None => if |s| == 0 then [] else [s]
    case Some(i) => [s[..i]] + SplitLines(s[i + 1..])
  }

  lemma {:induction false} NewlineAfter(x: string, y: string)
    requires '\n' !in x
    ensures NewlineAt(x + "\n" + y) == Some(|x|)
    decreases |x|
  {
    if |x| > 0 {
      assert x[0] in x;
      assert '\n' !in x[1..] by {
        assert forall c :: c in x[1..] ==> c in x;
      }
      NewlineAfter(x[1..], y);
      assert (x + "\n" + y)[1..] == x[1..] + "\n" + y;
    }
  }

  predicate NoNewlines(ss: seq<string>) {
    forall i :: 0 <= i < |ss| ==> '\n' !in ss[i]
  }

  /** Splitting the joined lines gives the lines back when none holds a
      newline of its own. */
  lemma {:induction false} SplitJoin(ss: seq<string>)
    requires NoNewlines(ss)
    ensures SplitLines(Join(ss)) == ss
    decreases |ss|
  {
    if |ss| == 0 {
      assert Join(ss) == "";
    } else {
      var x, tail := ss[0], ss[1..];
      assert Join(ss) == x + "\n" + Join(tail);
      assert '\n' !in x;
      SplitStep(x, Join(tail));
      assert NoNewlines(tail);
      SplitJoin(tail);
      assert [x] + tail == ss;
    }
  }

  lemma SplitStep(x: string, rest: string)
    requires '\n' !in x
    ensures SplitLines(x + "\n" + rest) == [x] + SplitLines(rest)
  {
    var s := x + "\n" + rest;
    NewlineAfter(x, rest);
    assert s[..|x|] == x;
    assert s[|x| + 1..] == rest;
  }

  // ---------------------------------------------------------------------
  // nesting

  /** Walks the lines with the stack of open containers: every line must be
      indented by the number of containers open around it, and every close
      must match the innermost open container. Gives the stack left open. */
  function Nest(stack: seq<Tag>, ls: seq<Line>): Option<seq<Tag>>
    decreases |ls|
  {
    if |ls| == 0 then Some(stack)
    else
      var l := ls[0];
      match l
      case Open(d, t) =>
        if d == |stack| then Nest(stack + [t], ls[1..]) else None
      case Close(d, t) =>
        if |stack| > 0 && stack[|stack| - 1] == t && d == |stack| - 1
        then Nest(stack[..|stack| - 1], ls[1..]) else None
      case KeyLine(d, _) =>
        if d == |stack| then Nest(stack, ls[1..]) else None
      case StringLine(d, _) =>
        if d == |stack| then Nest(stack, ls[1..]) else None
  }

  /** Tags pair up and indentation follows the nesting depth. */
  predicate Balanced(ls: seq<Line>) {
    Nest([], ls) == Some([])
  }

  lemma {:induction false} NestAppend(stack: seq<Tag>, a: seq<Line>, b: seq<Line>)
    ensures Nest(stack, a + b) ==
      match Nest(stack, a)
      case None => None
      case Some(s) => Nest(s, b)
    decreases |a|
  {
    if |a| == 0 {
      assert a + b == b;
    } else {
      assert (a + b)[0] == a[0];
      assert (a + b)[1..] == a[1..] + b;
      match a[0]
      case Open(d, t) =>
        NestAppend(stack + [t], a[1..], b);
      case Close(d, t) =>
        if |stack| > 0 {
          NestAppend(stack[..|stack| - 1], a[1..], b);
        }
      case KeyLine(d, _) =>
        NestAppend(stack, a[1..], b);
      case StringLine(d, _) =>
        NestAppend(stack, a[1..], b);
    }
  }

  /** A run of lines that leaves the stack as it found it. */
  predicate Level(ls: seq<Line>, stack: seq<Tag>) {
    Nest(stack, ls) == Some(stack)
  }

  lemma LevelAppend(a: seq<Line>, b: seq<Line>, stack: seq<Tag>)
    requires Level(a, stack) && Level(b, stack)
    ensures Level(a + b, stack)
  {
    NestAppend(stack, a, b);
  }

  /** A body between the open and the close of one container. */
  function Wrapped(d: nat, t: Tag, body: seq<Line>): seq<Line> {
    [Open(d, t)] + body + [Close(d, t)]
  }

  /** Wrapping a level run in an open and a matching close at the current
      depth is again a level run. */
  lemma Wrap(t: Tag, body: seq<Line>, stack: seq<Tag>)
    requires Level(body, stack + [t])
    ensures Level(Wrapped(|stack|, t, body), stack)
  {
    var inner := stack + [t];
    NestAppend(stack, [Open(|stack|, t)], body + [Close(|stack|, t)]);
    assert Wrapped(|stack|, t, body) == [Open(|stack|, t)] + (body + [Close(|stack|, t)]);
    assert Nest(stack, [Open(|stack|, t)]) == Nest(inner, []);
    NestAppend(inner, body, [Close(|stack|, t)]);
    assert inner[..|inner| - 1] == stack;
    assert Nest(inner, [Close(|stack|, t)]) == Nest(stack, []);
  }

  /** A key and its string at the current depth. */
  lemma LevelPair(x: string, y: string, stack: seq<Tag>)
    ensures Level([KeyLine(|stack|, x), StringLine(|stack|, y)], stack)
  {
    var ls := [KeyLine(|stack|, x), StringLine(|stack|, y)];
    assert ls[1..] == [StringLine(|stack|, y)];
    assert Nest(stack, ls[1..]) == Nest(stack, []);
  }

  /** A key line at the current depth. */
  lemma LevelKey(x: string, stack: seq<Tag>)
    ensures Level([KeyLine(|stack|, x)], stack)
  {
    assert [KeyLine(|stack|, x)][1..] == [];
  }

  // ---------------------------------------------------------------------
  // what a reader of the dictionaries sees

  /** A key element followed by its string value, at one depth. */
  datatype Entry = Entry(depth: nat, key: string, value: string)

  /** The key/string pairs of a run of lines, in order; a key followed by
      anything but a string at its own depth (a nested container) is not a
      pair. */
  function Entries(ls: seq<Line>): seq<Entry>
    decreases |ls|
  {
    if |ls| == 0 then []
    else if |ls| >= 2 && ls[0].KeyLine? && ls[1].StringLine? && ls[0].depth == ls[1].depth
    then [Entry(ls[0].depth, ls[0].text, ls[1].text)] + Entries(ls[2..])
    else Entries(ls[1..])
  }

  /** A run that does not end with a dangling key. */
  predicate EndsWhole(ls: seq<Line>) {
    |ls| == 0 || !ls[|ls| - 1].KeyLine?
  }

  lemma {:induction false} EntriesAppend(a: seq<Line>, b: seq<Line>)
    requires EndsWhole(a)
    ensures Entries(a + b) == Entries(a) + Entries(b)
    decreases |a|
  {
    var ab := a + b;
    if |a| == 0 {
      assert ab == b;
    } else if |a| >= 2 && a[0].KeyLine? && a[1].StringLine? && a[0].depth == a[1].depth {
      assert ab[0] == a[0] && ab[1] == a[1];
      assert ab[2..] == a[2..] + b;
      assert EndsWhole(a[2..]);
      EntriesAppend(a[2..], b);
    } else {
      assert ab[0] == a[0];
      assert ab[1..] == a[1..] + b;
      if |a| == 1 {
        assert !a[0].KeyLine?;
        assert a[1..] == [];
      } else {
        assert ab[1] == a[1];
      }
      assert EndsWhole(a[1..]);
      EntriesAppend(a[1..], b);
    }
  }

  /** The keys of the entries at one depth. */
  function KeysAt(es: seq<Entry>, d: nat): seq<string>
    decreases |es|
  {
    if |es| == 0 then []
    else (if es[0].depth == d then [es[0].key] else []) + KeysAt(es[1..], d)
  }

  lemma EndsWholeAppend(a: seq<Line>, b: seq<Line>)
    requires EndsWhole(b) && (|b| > 0 || EndsWhole(a))
    ensures EndsWhole(a + b)
  {
    if |b| > 0 {
      assert (a + b)[|a + b| - 1] == b[|b| - 1];
    } else {
      assert a + b == a;
    }
  }

  /** The open and close lines of a container add no pairs. */
  lemma EntriesWrapped(d: nat, t: Tag, body: seq<Line>)
    requires EndsWhole(body)
    ensures Entries(Wrapped(d, t, body)) == Entries(body)
    ensures EndsWhole(Wrapped(d, t, body))
  {
    var w := Wrapped(d, t, body);
    assert w[1..] == body + [Close(d, t)];
    EntriesAppend(body, [Close(d, t)]);
    assert [Close(d, t)][1..] == [];
  }

  /** A key that names a container is not a key/string pair. */
  lemma EntriesKeyedContainer(x: string, d: nat, t: Tag, body: seq<Line>)
    requires EndsWhole(body)
    ensures Entries([KeyLine(d, x)] + Wrapped(d, t, body)) == Entries(body)
  {
    var w := [KeyLine(d, x)] + Wrapped(d, t, body);
    assert w[1..] == Wrapped(d, t, body);
    EntriesWrapped(d, t, body);
  }

  lemma KeysAtOne(e: Entry, d: nat)
    ensures KeysAt([e], d) == if e.depth == d then [e.key] else []
  {
    assert [e][1..] == [];
  }

  lemma {:induction false} KeysAtAppend(a: seq<Entry>, b: seq<Entry>, d: nat)
    ensures KeysAt(a + b, d) == KeysAt(a, d) + KeysAt(b, d)
    decreases |a|
  {
    if |a| == 0 {
      assert a + b == b;
    } else {
      assert (a + b)[1..] == a[1..] + b;
      KeysAtAppend(a[1..], b, d);
    }
  }

  // no stray lines

  /** Every key line is followed, at its own depth, by its string value or
      by the opening of the container it names, and every string line is
      the value of the key just before it. */
  predicate Paired(ls: seq<Line>)
    decreases |ls|
  {
    if |ls| == 0 then true
    else if ls[0].StringLine? then false
    else if ls[0].KeyLine? then
      |ls| >= 2 && ls[1].depth == ls[0].depth &&
      (if ls[1].StringLine? then Paired(ls[2..]) else ls[1].Open? && Paired(ls[1..]))
    else Paired(ls[1..])
  }

  /** A paired run never ends with a dangling key. */
  lemma {:induction false} PairedEndsWhole(ls: seq<Line>)
    requires Paired(ls)
    ensures EndsWhole(ls)
    decreases |ls|
  {
    if |ls| >= 2 {
      if ls[0].KeyLine? && ls[1].StringLine? {
        PairedEndsWhole(ls[2..]);
        if |ls| > 2 {
          assert ls[2..][|ls[2..]| - 1] == ls[|ls| - 1];
        }
      } else {
        PairedEndsWhole(ls[1..]);
        assert ls[1..][|ls[1..]| - 1] == ls[|ls| - 1];
      }
    }
  }

  lemma {:induction false} PairedAppend(a: seq<Line>, b: seq<Line>)
    requires Paired(a) && Paired(b)
    ensures Paired(a + b)
    decreases |a|
  {
    var ab := a + b;
    if |a| == 0 {
      assert ab == b;
    } else if a[0].KeyLine? && a[1].StringLine? {
      assert ab[0] == a[0] && ab[1] == a[1];
      assert ab[2..] == a[2..] + b;
      PairedAppend(a[2..], b);
    } else {
      assert ab[0] == a[0];
      assert ab[1..] == a[1..] + b;
      PairedAppend(a[1..], b);
      if a[0].KeyLine? {
        assert ab[1] == a[1];
      }
    }
  }

  lemma PairedPair(d: nat, x: string, y: string)
    ensures Paired([KeyLine(d, x), StringLine(d, y)])
  {
    assert [KeyLine(d, x), StringLine(d, y)][2..] == [];
  }

  lemma PairedWrapped(d: nat, t: Tag, body: seq<Line>)
    requires Paired(body)
    ensures Paired(Wrapped(d, t, body))
  {
    var w := Wrapped(d, t, body);
    var c := [Close(d, t)];
    assert c[1..] == [];
    assert Paired(c);
    PairedAppend(body, c);
    assert w[1..] == body + c;
  }

  /** A key that names a container is followed by that container's opening
      line. */
  lemma PairedKeyedContainer(x: string, d: nat, t: Tag, body: seq<Line>)
    requires Paired(body)
    ensures Paired([KeyLine(d, x)] + Wrapped(d, t, body))
  {
    var w := [KeyLine(d, x)] + Wrapped(d, t, body);
    assert w[1..] == Wrapped(d, t, body);
    PairedWrapped(d, t, body);
  }

  /** The two lines of each entry, in order. */
  function PairLines(es: seq<Entry>): (r: seq<Line>)
    ensures |r| == 2 * |es|
    decreases |es|
  {
    if |es| == 0 then []
    else [KeyLine(es[0].depth, es[0].key), StringLine(es[0].depth, es[0].value)] + PairLines(es[1..])
  }

  /** A run of key and string lines only. */
  predicate Flat(ls: seq<Line>) {
    forall i :: 0 <= i < |ls| ==> ls[i].KeyLine? || ls[i].StringLine?
  }

  lemma FlatPairedAppend(a: seq<Line>, b: seq<Line>)
    requires Paired(a) && Flat(a) && Paired(b) && Flat(b)
    ensures Paired(a + b) && Flat(a + b)
  {
    PairedAppend(a, b);
    forall i | 0 <= i < |a + b| ensures (a + b)[i].KeyLine? || (a + b)[i].StringLine? {
      if i >= |a| {
        assert (a + b)[i] == b[i - |a|];
      }
    }
  }

  /** A paired run of key and string lines is exactly the lines of its
      entries: nothing is added, dropped or reordered. */
  lemma {:induction false} PairedFlatLines(ls: seq<Line>)
    requires Paired(ls) && Flat(ls)
    ensures ls == PairLines(Entries(ls))
    decreases |ls|
  {
    if |ls| > 0 {
      assert ls[0].KeyLine? && ls[1].StringLine?;
      assert Flat(ls[2..]) by {
        forall i | 0 <= i < |ls[2..]| ensures ls[2..][i].KeyLine? || ls[2..][i].StringLine? {
          assert ls[2..][i] == ls[i + 2];
        }
      }
      PairedFlatLines(ls[2..]);
      var e := Entry(ls[0].depth, ls[0].text, ls[1].text);
      assert Entries(ls) == [e] + Entries(ls[2..]);
      assert ([e] + Entries(ls[2..]))[1..] == Entries(ls[2..]);
      assert ls == [ls[0], ls[1]] + ls[2..];
    }
  }

  /** Conversely, the lines of any entries are paired and flat, and read
      back as those entries. */
  lemma {:induction false} PairLinesPaired(es: seq<Entry>)
    ensures Paired(PairLines(es)) && Flat(PairLines(es))
    ensures Entries(PairLines(es)) == es
    decreases |es|
  {
    if |es| > 0 {
      var ls := PairLines(es);
      PairLinesPaired(es[1..]);
      assert ls[2..] == PairLines(es[1..]);
      assert ls[0] == KeyLine(es[0].depth, es[0].key);
      assert ls[1] == StringLine(es[0].depth, es[0].value);
      assert es == [es[0]] + es[1..];
      forall i | 0 <= i < |ls| ensures ls[i].KeyLine? || ls[i].StringLine? {
        if i >= 2 {
          assert ls[i] == PairLines(es[1..])[i - 2];
        }
      }
    }
  }
}
