/**
 * The tag parser: it folds the list of lexed tags into a forest of variable
 * references and `for` loops, keeping the loops still open on an explicit stack.
 */
module Parser {
  import opened Wrappers
  import opened Text

  /** A node of the parsed template. */
  datatype JinjaNode =
    | Variable(path: seq<string>)
    | ForLoop(loopVar: string, iterable: string, body: seq<JinjaNode>)

  /** What one tag asks of the parser. */
  datatype TagAction =
    | PushVariable(path: seq<string>)
    | OpenLoop(loopVar: string, iterable: string)
    | CloseLoop
    | Skip

  /** The `ast` forest built so far and the `stack` of loops that are still open. */
  datatype ParserState = ParserState(ast: seq<JinjaNode>, stack: seq<JinjaNode>)

  /** Every open loop on the stack is a `ForLoop`. */
  predicate AllLoops(stack: seq<JinjaNode>) {
    forall k :: 0 <= k < |stack| ==> stack[k].ForLoop?
  }

  /** `s` has no whitespace on either end, so trimming leaves it alone. */
  predicate Trimmed(s: string) {
    s == [] || (!IsWhitespace(s[0]) && !IsWhitespace(s[|s| - 1]))
  }

  lemma {:induction false} TrimmedFixed(s: string)
    requires Trimmed(s)
    ensures Trim(s) == s
  {
    assert "" + s + "" == s;
    TrimPadded("", s, "");
  }

  /** Each piece trimmed (`.map(|s| s.trim())`). */
  function TrimEach(parts: seq<string>): (r: seq<string>)
    ensures |r| == |parts|
    ensures forall k :: 0 <= k < |r| ==> Trimmed(r[k])
  {
    seq(|parts|, k requires 0 <= k < |parts| => Trim(parts[k]))
  }

  /** The text between the delimiters of a tag, trimmed. */
  function Inner(tag: string, open: string, close: string): string {
    Trim(TrimEndMatches(TrimStartMatches(tag, open), close))
  }

  /** The path of a `{{ … }}` tag: its inner text split on `.`, each segment trimmed. */
  function VariablePath(tag: string): (path: seq<string>)
    ensures |path| == |Split(Inner(tag, "{{", "}}"), '.')| >= 1
    ensures forall k :: 0 <= k < |path| ==> Trimmed(path[k]) && '.' !in path[k]
  {
    var parts := Split(Inner(tag, "{{", "}}"), '.');
    var path := TrimEach(parts);
    forall k | 0 <= k < |path| ensures '.' !in path[k] {
      assert path[k] == Trim(parts[k]);
      TrimChars(parts[k]);
    }
    path
  }

  /** Segment `k` of a variable's path is piece `k` of its inner text, trimmed. */
  lemma {:induction false} VariableSegments(tag: string)
    ensures var parts := Split(Inner(tag, "{{", "}}"), '.');
      |VariablePath(tag)| == |parts| && forall k :: 0 <= k < |parts| ==> VariablePath(tag)[k] == Trim(parts[k])
  {
    var parts := Split(Inner(tag, "{{", "}}"), '.');
    assert VariablePath(tag) == TrimEach(parts);
  }

  /** `x` occurs in `parts` at `i` and nowhere before: what `position` reports. */
  predicate FirstAt(parts: seq<string>, x: string, i: nat) {
    i < |parts| && parts[i] == x && forall k :: 0 <= k < i ==> parts[k] != x
  }

  /** `Iterator::position` of the first piece equal to `x`. */
  function FirstIndexOf(parts: seq<string>, x: string): (r: Option<nat>)
    ensures r.Some? ==> FirstAt(parts, x, r.value)
    ensures r.None? <==> x !in parts
  {
    if parts == [] then None
    else if parts[0] == x then Some(0)
    else match FirstIndexOf(parts[1..], x)
      case None => None
      case Some(i) => Some(i + 1)
  }

  /** `parts.get(k).to_string_or_empty()`: the piece at `k`, or `""` past the end. */
  function PartOrEmpty(parts: seq<string>, k: nat): (r: string)
    ensures k < |parts| ==> r == parts[k]
    ensures k >= |parts| ==> r == ""
  {
    if k < |parts| then parts[k] else ""
  }

  /**
   * The loop header read from the whitespace tokens of a `{% … %}` tag: the first
   * `for` token must be followed by a variable and then `in`; the iterable is the
   * token after `in`, or `""` when there is none.
   */
  function LoopHeader(tokens: seq<string>): (r: Option<(string, string)>)
    ensures "for" !in tokens ==> r.None?
    ensures forall i: nat :: FirstAt(tokens, "for", i) ==>
      (r.Some? <==> i + 2 < |tokens| && tokens[i + 2] == "in")
      && (r.Some? ==> r.value == (tokens[i + 1], if i + 3 < |tokens| then tokens[i + 3] else ""))
    ensures r.Some? ==> r.value.0 in tokens && (r.value.1 == "" || r.value.1 in tokens)
  {
    match FirstIndexOf(tokens, "for")
    case None => None
    case Some(i) =>
      assert forall j: nat :: FirstAt(tokens, "for", j) ==> j == i;
      if i + 2 < |tokens| && tokens[i + 2] == "in" then
        Some((tokens[i + 1], PartOrEmpty(tokens, i + 3)))
      else None
  }

  /** The whitespace tokens of a `{% … %}` tag's inner text. */
  function LoopTokens(tag: string): seq<string> {
    SplitWhitespace(Inner(tag, "{%", "%}"))
  }

  /** The if-chain of the parser's loop, on a tag that is already trimmed. */
  function ClassifyTag(tag: string): TagAction {
    if StartsWith(tag, "{{") && EndsWith(tag, "}}") then PushVariable(VariablePath(tag))
    else if StartsWith(tag, "{%") && Contains(tag, "for") && Contains(tag, "in") then
      match LoopHeader(LoopTokens(tag))
      case None => Skip
      case Some(h) => OpenLoop(h.0, h.1)
    else if Contains(tag, "endfor") then CloseLoop
    else Skip
  }

  /** How the parser's loop classifies a tag: it trims the tag, then runs the if-chain. */
  function Classify(raw: string): TagAction {
    ClassifyTag(Trim(raw))
  }

  /** The tag is trimmed first, so padding around a tag never changes what it does. */
  lemma {:induction false} ClassifyTrimmed(raw: string)
    ensures Classify(Trim(raw)) == Classify(raw)
  {
    TrimmedFixed(Trim(raw));
  }

  /** A loop header read from a tag has a one-word variable and a one-word or empty iterable. */
  lemma {:induction false} LoopWords(tag: string)
    ensures var h := LoopHeader(LoopTokens(tag));
      h.Some? ==> h.value.0 != [] && NoWhitespace(h.value.0) && NoWhitespace(h.value.1)
  {
    SplitWhitespaceTokens(Inner(tag, "{%", "%}"));
    if LoopHeader(LoopTokens(tag)).Some? {
      HeaderWords(LoopTokens(tag));
    }
  }

  lemma {:induction false} HeaderWords(tokens: seq<string>)
    requires Tokens(tokens) && LoopHeader(tokens).Some?
    ensures var h := LoopHeader(tokens).value; h.0 != [] && NoWhitespace(h.0) && NoWhitespace(h.1)
  {
    var h := LoopHeader(tokens).value;
    var i :| 0 <= i < |tokens| && tokens[i] == h.0;
    if h.1 != "" {
      var j :| 0 <= j < |tokens| && tokens[j] == h.1;
    }
  }

  /** A variable tag holding only whitespace names the path `[""]`: one empty segment. */
  lemma {:induction false} BlankVariablePath(w: string)
    requires w != [] && AllWhitespace(w)
    ensures VariablePath("{{" + w + "}}") == [""]
  {
    BlankVariableInner(w);
    assert TrimEach([""]) == [Trim("")];
    TrimmedFixed("");
  }

  /** The inner text of `{{` + `w` + `}}` is empty when `w` is whitespace. */
  lemma {:induction false} BlankVariableInner(w: string)
    requires w != [] && AllWhitespace(w)
    ensures Inner("{{" + w + "}}", "{{", "}}") == ""
  {
    var t := "{{" + w + "}}";
    var u := w + "}}";
    BlankPieces(w);
    assert TrimStartMatches(t, "{{") == TrimStartMatches(u, "{{") == u;
    assert TrimEndMatches(u, "}}") == TrimEndMatches(w, "}}") == w;
    TrimPadded(w, "", "");
    assert w + "" + "" == w;
  }

  /** How `{{` + `w` + `}}` falls apart at its delimiters when `w` is whitespace. */
  lemma {:induction false} BlankPieces(w: string)
    requires w != [] && AllWhitespace(w)
    ensures var t := "{{" + w + "}}"; var u := w + "}}";
      StartsWith(t, "{{") && t[2..] == u && !StartsWith(u, "{{")
      && EndsWith(u, "}}") && u[..|u| - 2] == w && !EndsWith(w, "}}")
  {
    var t := "{{" + w + "}}";
    var u := w + "}}";
    assert t[..2] == "{{" && t[2..] == u;
    assert u[..2][0] == w[0];
    assert u[|u| - 2..] == "}}" && u[..|u| - 2] == w;
    if |w| >= 2 {
      assert w[|w| - 2..][1] == w[|w| - 1];
    }
  }

  /** `{{ }}` names `[""]`. */
  lemma EmptyVariableExample()
    ensures VariablePath("{{ }}") == [""]
  {
    assert AllWhitespace(" ");
    BlankVariablePath(" ");
    BlankLiteral();
  }

  lemma BlankLiteral()
    ensures "{{" + " " + "}}" == "{{ }}"
  {
  }

  /** Spaces around the dot of a path are dropped: `{{ x . y }}` names `[x, y]`. */
  lemma {:induction false} SpacedDotDropped(x: string, y: string)
    requires x != [] && y != [] && Trimmed(x) && Trimmed(y) && '.' !in x && '.' !in y
    ensures VariablePath(Delimited("{{", x + " . " + y, "}}")) == [x, y]
  {
    var j := x + " . " + y;
    SpacedPieces(x, y);
    InnerPadded("{{", j, "}}");
    SplitPair(j, x + " ", " " + y);
    SpacedTrims(x, y);
    PathOfPair(Delimited("{{", j, "}}"), x + " ", " " + y);
  }

  /** A text with exactly one dot splits into the pieces around it. */
  lemma {:induction false} SplitPair(j: string, l: string, r: string)
    requires j == l + ['.'] + r && '.' !in l && '.' !in r
    ensures Split(j, '.') == [l, r]
  {
    SplitAfter(l, r, '.');
    SplitNoSep(r, '.');
  }

  /** A tag whose inner text splits into two pieces names the two pieces trimmed. */
  lemma {:induction false} PathOfPair(tag: string, l: string, r: string)
    requires Split(Inner(tag, "{{", "}}"), '.') == [l, r]
    ensures VariablePath(tag) == [Trim(l), Trim(r)]
  {
    assert VariablePath(tag) == TrimEach([l, r]);
    TrimEachPair(l, r);
  }

  lemma {:induction false} TrimEachPair(l: string, r: string)
    ensures TrimEach([l, r]) == [Trim(l), Trim(r)]
  {
    var parts := [l, r];
    TrimEachAt(parts, 0);
    TrimEachAt(parts, 1);
  }

  lemma {:induction false} TrimEachAt(parts: seq<string>, k: nat)
    requires k < |parts|
    ensures TrimEach(parts)[k] == Trim(parts[k])
  {
  }

  lemma {:induction false} SpacedTrims(x: string, y: string)
    requires x != [] && y != [] && Trimmed(x) && Trimmed(y)
    ensures Trim(x + " ") == x && Trim(" " + y) == y
  {
    assert AllWhitespace(" ");
    TrimPadded("", x, " ");
    assert "" + x + " " == x + " ";
    TrimPadded(" ", y, "");
    assert " " + y + "" == " " + y;
  }

  /** `x . y` is trimmed, and its only dot is the one between the spaces. */
  lemma {:induction false} SpacedPieces(x: string, y: string)
    requires x != [] && y != [] && Trimmed(x) && Trimmed(y) && '.' !in x && '.' !in y
    ensures Trimmed(x + " . " + y)
    ensures '.' !in x + " " && '.' !in " " + y
    ensures x + " . " + y == (x + " ") + ['.'] + (" " + y)
  {
    var j := x + " . " + y;
    assert j[0] == x[0] && j[|j| - 1] == y[|y| - 1];
    assert x + " . " + y == x + (" . " + y);
    assert (x + " ") + ['.'] + (" " + y) == x + (" " + ['.'] + " " + y);
    assert " . " + y == " " + ['.'] + " " + y;
    forall i | 0 <= i < |x| + 1 ensures (x + " ")[i] != '.' {
      if i < |x| {
        assert (x + " ")[i] == x[i];
      }
    }
    forall i | 0 <= i < |y| + 1 ensures (" " + y)[i] != '.' {
      if i > 0 {
        assert (" " + y)[i] == y[i - 1];
      }
    }
  }

  /** `{{ a . b }}` names `["a", "b"]`. */
  lemma SpacedDotExample()
    ensures VariablePath("{{ a . b }}") == ["a", "b"]
  {
    SpacedDotDropped("a", "b");
    DottedLiteral();
  }

  lemma DottedLiteral()
    ensures Delimited("{{", "a" + " . " + "b", "}}") == "{{ a . b }}"
  {
  }

  /** Appends `node` to the body of the innermost open loop, or to the forest when none is open. */
  function Emit(st: ParserState, node: JinjaNode): (r: ParserState)
    ensures AllLoops(st.stack) ==> AllLoops(r.stack) && |r.stack| == |st.stack|
    ensures var n := |st.stack|; n > 0 && st.stack[n - 1].ForLoop? ==>
      r.ast == st.ast && |r.stack| == n && r.stack[..n - 1] == st.stack[..n - 1]
      && r.stack[n - 1] == ForLoop(st.stack[n - 1].loopVar, st.stack[n - 1].iterable, st.stack[n - 1].body + [node])
    ensures st.stack == [] ==> r == ParserState(st.ast + [node], [])
  {
    if |st.stack| > 0 && st.stack[|st.stack| - 1].ForLoop? then
      var top := st.stack[|st.stack| - 1];
      ParserState(st.ast, st.stack[..|st.stack| - 1] + [top.(body := top.body + [node])])
    else
      ParserState(st.ast + [node], st.stack)
  }

  /** What the parser does for a tag classified as `a`. */
  function Perform(st: ParserState, a: TagAction): (r: ParserState)
    ensures AllLoops(st.stack) ==> AllLoops(r.stack)
    ensures a.Skip? ==> r == st
    ensures a.CloseLoop? && st.stack == [] ==> r == st
    ensures a.OpenLoop? ==> r == ParserState(st.ast, st.stack + [ForLoop(a.loopVar, a.iterable, [])])
    ensures a.PushVariable? ==> r == Emit(st, Variable(a.path))
    ensures a.CloseLoop? && st.stack != [] ==>
      r == Emit(ParserState(st.ast, st.stack[..|st.stack| - 1]), st.stack[|st.stack| - 1])
  {
    match a
    case PushVariable(path) => Emit(st, Variable(path))
    case OpenLoop(v, it) => ParserState(st.ast, st.stack + [ForLoop(v, it, [])])
    case CloseLoop =>
      if |st.stack| == 0 then st
      else Emit(ParserState(st.ast, st.stack[..|st.stack| - 1]), st.stack[|st.stack| - 1])
    case Skip => st
  }

  /** One iteration of the parser's loop. */
  function Step(st: ParserState, tag: string): ParserState {
    Perform(st, Classify(tag))
  }

  /** The parser's loop run over `tags`, starting from state `st`. */
  function RunFrom(st: ParserState, tags: seq<string>): ParserState
    decreases |tags|
  {
    if tags == [] then st else RunFrom(Step(st, tags[0]), tags[1..])
  }

  const Initial := ParserState([], [])

  /** What `parse_jinja2_ast` returns: the forest, with every loop still open dropped. */
  function Parse(tags: seq<string>): seq<JinjaNode> {
    RunFrom(Initial, tags).ast
  }

  /** The parser: one pass over the tags with an explicit stack of open loops. */
  method ParseJinja2Ast(tags: seq<string>) returns (ast: seq<JinjaNode>)
    ensures ast == Parse(tags)
  {
    ast := [];
    var stack: seq<JinjaNode> := [];
    for i := 0 to |tags|
      invariant RunFrom(ParserState(ast, stack), tags[i..]) == RunFrom(Initial, tags)
    {
      RunCons(ParserState(ast, stack), tags, i);
      ast, stack := Act(ast, stack, Classify(tags[i]));
    }
    assert tags[|tags|..] == [];
  }

  /** The body of the parser's loop, once the tag is classified. */
  method Act(ast: seq<JinjaNode>, stack: seq<JinjaNode>, action: TagAction)
    returns (ast': seq<JinjaNode>, stack': seq<JinjaNode>)
    ensures ParserState(ast', stack') == Perform(ParserState(ast, stack), action)
  {
    ast', stack' := ast, stack;
    match action
    case PushVariable(path) =>
      var node := Variable(path);
      if |stack'| > 0 && stack'[|stack'| - 1].ForLoop? {
        var top := stack'[|stack'| - 1];
        stack' := stack'[..|stack'| - 1] + [top.(body := top.body + [node])];
      } else {
        ast' := ast' + [node];
      }
    case OpenLoop(v, it) =>
      stack' := stack' + [ForLoop(v, it, [])];
    case CloseLoop =>
      if |stack'| > 0 {
        var forNode := stack'[|stack'| - 1];
        stack' := stack'[..|stack'| - 1];
        if |stack'| > 0 && stack'[|stack'| - 1].ForLoop? {
          var top := stack'[|stack'| - 1];
          stack' := stack'[..|stack'| - 1] + [top.(body := top.body + [forNode])];
        } else {
          ast' := ast' + [forNode];
        }
      }
    case Skip =>
  }

  /** The run from tag `i` on is one step followed by the run from tag `i + 1` on. */
  lemma {:induction false} RunCons(st: ParserState, tags: seq<string>, i: nat)
    requires i < |tags|
    ensures RunFrom(st, tags[i..]) == RunFrom(Perform(st, Classify(tags[i])), tags[i + 1..])
  {
    assert tags[i..][0] == tags[i];
    assert tags[i..][1..] == tags[i + 1..];
  }

  /** Running over two lists of tags in turn is running over their concatenation. */
  lemma {:induction false} RunAppend(st: ParserState, a: seq<string>, b: seq<string>)
    ensures RunFrom(st, a + b) == RunFrom(RunFrom(st, a), b)
    decreases |a|
  {
    if a != [] {
      assert (a + b)[1..] == a[1..] + b;
      RunAppend(Step(st, a[0]), a[1..], b);
    } else {
      assert a + b == b;
    }
  }

  /** Invariant of the loop: whatever the tags, the stack holds only `ForLoop` nodes. */
  lemma {:induction false} RunKeepsLoops(st: ParserState, tags: seq<string>)
    requires AllLoops(st.stack)
    ensures AllLoops(RunFrom(st, tags).stack)
    decreases |tags|
  {
    if tags != [] {
      RunKeepsLoops(Step(st, tags[0]), tags[1..]);
    }
  }

  lemma {:induction false} StackHoldsLoops(tags: seq<string>)
    ensures AllLoops(RunFrom(Initial, tags).stack)
  {
    RunKeepsLoops(Initial, tags);
  }

  /** An `endfor` met while no loop is open changes nothing. */
  lemma {:induction false} UnmatchedEndIgnored(tags: seq<string>, end: string)
    requires Classify(end).CloseLoop?
    requires RunFrom(Initial, tags).stack == []
    ensures Parse(tags + [end]) == Parse(tags)
    ensures RunFrom(Initial, tags + [end]).stack == []
  {
    RunAppend(Initial, tags, [end]);
    assert [end][1..] == [];
  }

  // ------------------------------------------------------------------
  // Printing a forest back to tags: the parser inverts it.

  /** A name the printer can write between delimiters and read back as one token. */
  predicate IsIdent(x: string) {
    x != [] && NoWhitespace(x) && '.' !in x && '{' !in x && '}' !in x && '%' !in x
  }

  predicate WellFormedNode(n: JinjaNode) {
    match n
    case Variable(path) => |path| >= 1 && forall k :: 0 <= k < |path| ==> IsIdent(path[k])
    case ForLoop(v, it, body) => IsIdent(v) && IsIdent(it) && WellFormedForest(body)
  }

  predicate WellFormedForest(f: seq<JinjaNode>)
    decreases f
  {
    forall k :: 0 <= k < |f| ==> WellFormedNode(f[k])
  }

  /** A text between two delimiters, set off from them by single spaces. */
  function Delimited(open: string, x: string, close: string): string {
    open + " " + x + " " + close
  }

  /** `{{ a.b.c }}` */
  function VarTag(path: seq<string>): string {
    Delimited("{{", JoinWith(path, '.'), "}}")
  }

  /** `{% for v in it %}` */
  function ForTag(v: string, it: string): string {
    Delimited("{%", JoinSpaces(["for", v, "in", it]), "%}")
  }

  /** `{% endfor %}` */
  function EndTag(): string {
    Delimited("{%", "endfor", "%}")
  }

  /** The tags of a forest, in document order. */
  function PrintForest(f: seq<JinjaNode>): seq<string>
    decreases f
  {
    if f == [] then []
    else
      var head := match f[0]
        case Variable(path) => [VarTag(path)]
        case ForLoop(v, it, body) => [ForTag(v, it)] + PrintForest(body) + [EndTag()];
      head + PrintForest(f[1..])
  }

  /** Appends the nodes one after another, as `Emit` does. */
  function EmitAll(st: ParserState, f: seq<JinjaNode>): ParserState
    decreases |f|
  {
    if f == [] then st else EmitAll(Emit(st, f[0]), f[1..])
  }

  /** Joined names keep the first character of the first name and the last of the last. */
  lemma {:induction false} JoinEnds(path: seq<string>)
    requires |path| >= 1 && forall k :: 0 <= k < |path| ==> IsIdent(path[k])
    ensures Trimmed(JoinWith(path, '.')) && JoinWith(path, '.') != []
    ensures '{' !in JoinWith(path, '.') && '}' !in JoinWith(path, '.') && '%' !in JoinWith(path, '.')
  {
    if |path| > 1 {
      assert IsIdent(path[0]);
      JoinEnds(path[1..]);
      var t := JoinWith(path[1..], '.');
      assert JoinWith(path, '.') == path[0] + ['.'] + t;
    } else {
      assert IsIdent(path[0]);
    }
  }

  /** A text with non-blank ends, between the opening and closing delimiters and single spaces. */
  lemma {:induction false} InnerPadded(open: string, x: string, close: string)
    requires |open| == 2 && |close| == 2 && open[0] != ' ' && close[1] != ' '
    requires Trimmed(x)
    ensures Inner(Delimited(open, x, close), open, close) == x
  {
    var tag := Delimited(open, x, close);
    var afterOpen := " " + x + " " + close;
    assert tag[2..] == afterOpen;
    assert tag[..2] == open;
    assert !StartsWith(afterOpen, open) by { assert afterOpen[0] == ' '; }
    assert TrimStartMatches(tag, open) == TrimStartMatches(afterOpen, open);
    var body := " " + x + " ";
    assert afterOpen[..|afterOpen| - 2] == body;
    assert afterOpen[|afterOpen| - 2..] == close;
    assert !EndsWith(body, close) by { assert body[|body| - 1] == ' '; }
    assert TrimEndMatches(afterOpen, close) == TrimEndMatches(body, close);
    TrimPadded(" ", x, " ");
  }

  /** The delimiters survive at both ends of a delimited text. */
  lemma {:induction false} DelimitedEnds(open: string, x: string, close: string)
    requires |open| == 2 && |close| == 2
    ensures var tag := Delimited(open, x, close);
      StartsWith(tag, open) && EndsWith(tag, close) && tag[0] == open[0] && tag[1] == open[1]
      && tag[|tag| - 1] == close[1] && |tag| == |x| + 6
      && tag[3..3 + |x|] == x
  {
    var tag := Delimited(open, x, close);
    assert tag == open + (" " + x + " " + close);
    assert tag == open + " " + x + (" " + close);
  }

  /** A tag that starts with `{{` and ends with `}}` is a variable, whatever else it holds. */
  lemma {:induction false} ClassifyVariable(tag: string)
    requires Trim(tag) == tag && StartsWith(tag, "{{") && EndsWith(tag, "}}")
    ensures Classify(tag) == PushVariable(VariablePath(tag))
  {
  }

  /** A for-like `{% … %}` tag with a well-shaped header opens a loop. */
  lemma {:induction false} ClassifyOpen(tag: string, v: string, it: string)
    requires Trim(tag) == tag && !StartsWith(tag, "{{") && StartsWith(tag, "{%")
    requires Contains(tag, "for") && Contains(tag, "in")
    requires LoopHeader(LoopTokens(tag)) == Some((v, it))
    ensures Classify(tag) == OpenLoop(v, it)
  {
  }

  /** A tag that is neither a variable nor for-like but mentions `endfor` closes a loop. */
  lemma {:induction false} ClassifyClose(tag: string)
    requires Trim(tag) == tag && !StartsWith(tag, "{{") && !Contains(tag, "in")
    requires Contains(tag, "endfor")
    ensures Classify(tag) == CloseLoop
  {
  }

  /** The path of a printed variable tag reads back unchanged. */
  lemma {:induction false} VarTagPath(path: seq<string>)
    requires |path| >= 1 && forall k :: 0 <= k < |path| ==> IsIdent(path[k])
    ensures VariablePath(VarTag(path)) == path
  {
    var j := JoinWith(path, '.');
    JoinEnds(path);
    InnerPadded("{{", j, "}}");
    SplitJoin(path, '.');
    forall k | 0 <= k < |path| ensures Trim(path[k]) == path[k] {
      TrimmedFixed(path[k]);
    }
    assert TrimEach(path) == path;
  }

  lemma {:induction false} VarTagShape(path: seq<string>)
    requires |path| >= 1 && forall k :: 0 <= k < |path| ==> IsIdent(path[k])
    ensures var tag := VarTag(path); Trim(tag) == tag && StartsWith(tag, "{{") && EndsWith(tag, "}}")
  {
    var j := JoinWith(path, '.');
    var tag := VarTag(path);
    DelimitedEnds("{{", j, "}}");
    assert Trimmed(tag);
    TrimmedFixed(tag);
  }

  lemma {:induction false} VarTagClassified(path: seq<string>)
    requires |path| >= 1 && forall k :: 0 <= k < |path| ==> IsIdent(path[k])
    ensures Classify(VarTag(path)) == PushVariable(path)
  {
    VarTagShape(path);
    ClassifyVariable(VarTag(path));
    VarTagPath(path);
  }

  /** The words of a printed loop header, joined by spaces. */
  lemma {:induction false} HeaderText(v: string, it: string)
    ensures JoinSpaces(["for", v, "in", it]) == "for " + v + " in " + it
  {
    assert JoinSpaces([it]) == it;
    JoinSpacesCons("in", [it]);
    assert ["in"] + [it] == ["in", it];
    JoinSpacesCons(v, ["in", it]);
    assert [v] + ["in", it] == [v, "in", it];
    JoinSpacesCons("for", [v, "in", it]);
    assert ["for"] + [v, "in", it] == ["for", v, "in", it];
  }


  /** A printed loop header has non-blank ends and holds `for` and `in`. */
  lemma {:induction false} HeaderFacts(v: string, it: string)
    requires IsIdent(v) && IsIdent(it)
    ensures var j := JoinSpaces(["for", v, "in", it]);
      Trimmed(j) && OccursAt(j, "for", 0) && OccursAt(j, "in", 5 + |v|)
  {
    HeaderText(v, it);
    var j := "for " + v + " in " + it;
    assert j == "for " + (v + (" in " + it));
    assert j[0] == 'f' && j[|j| - 1] == it[|it| - 1];
    assert j[..3] == "for";
    assert j == ("for " + v) + (" in" + (" " + it));
    assert j[5 + |v|..7 + |v|] == "in";
  }

  /** An occurrence inside the text of a delimited tag is an occurrence in the tag. */
  lemma {:induction false} OccursInDelimited(open: string, x: string, close: string, p: string, i: nat)
    requires |open| == 2 && |close| == 2 && OccursAt(x, p, i)
    ensures Contains(Delimited(open, x, close), p)
  {
    var tag := Delimited(open, x, close);
    DelimitedEnds(open, x, close);
    assert tag[3 + i..3 + i + |p|] == x[i..i + |p|];
    assert OccursAt(tag, p, 3 + i);
  }

  lemma {:induction false} ForTagShape(v: string, it: string)
    requires IsIdent(v) && IsIdent(it)
    ensures var tag := ForTag(v, it);
      && Trim(tag) == tag && !StartsWith(tag, "{{") && StartsWith(tag, "{%")
      && Contains(tag, "for") && Contains(tag, "in")
  {
    var j := JoinSpaces(["for", v, "in", it]);
    var tag := ForTag(v, it);
    HeaderFacts(v, it);
    DelimitedEnds("{%", j, "%}");
    assert Trimmed(tag);
    TrimmedFixed(tag);
    OccursInDelimited("{%", j, "%}", "for", 0);
    OccursInDelimited("{%", j, "%}", "in", 5 + |v|);
    assert !StartsWith(tag, "{{") by { assert tag[1] == '%'; }
  }

  /** The header of a printed loop tag reads back as its variable and iterable. */
  lemma {:induction false} ForTagHeader(v: string, it: string)
    requires IsIdent(v) && IsIdent(it)
    ensures LoopHeader(LoopTokens(ForTag(v, it))) == Some((v, it))
  {
    var tokens := ["for", v, "in", it];
    var j := JoinSpaces(tokens);
    HeaderFacts(v, it);
    InnerPadded("{%", j, "%}");
    HeaderTokens(v, it);
    SplitJoinSpaces(tokens);
    assert LoopTokens(ForTag(v, it)) == tokens;
    HeaderOfTokens(v, it);
  }

  lemma {:induction false} HeaderTokens(v: string, it: string)
    requires IsIdent(v) && IsIdent(it)
    ensures var tokens := ["for", v, "in", it];
      forall k :: 0 <= k < |tokens| ==> tokens[k] != [] && NoWhitespace(tokens[k])
  {
    var tokens := ["for", v, "in", it];
    assert NoWhitespace("for") by {
      forall i | 0 <= i < 3 ensures !IsWhitespace("for"[i]) {
        assert "for"[i] in "for";
      }
    }
    assert NoWhitespace("in") by {
      forall i | 0 <= i < 2 ensures !IsWhitespace("in"[i]) {
        assert "in"[i] in "in";
      }
    }
    forall k | 0 <= k < |tokens| ensures tokens[k] != [] && NoWhitespace(tokens[k]) {
      if k == 0 { assert tokens[k] == "for"; }
      else if k == 1 { assert tokens[k] == v; }
      else if k == 2 { assert tokens[k] == "in"; }
      else { assert tokens[k] == it; }
    }
  }

  lemma {:induction false} HeaderOfTokens(v: string, it: string)
    ensures LoopHeader(["for", v, "in", it]) == Some((v, it))
  {
    assert FirstAt(["for", v, "in", it], "for", 0);
  }

  lemma {:induction false} ForTagClassified(v: string, it: string)
    requires IsIdent(v) && IsIdent(it)
    ensures Classify(ForTag(v, it)) == OpenLoop(v, it)
  {
    ForTagShape(v, it);
    ForTagHeader(v, it);
    ClassifyOpen(ForTag(v, it), v, it);
  }

  lemma {:induction false} EndTagClassified()
    ensures Classify(EndTag()) == CloseLoop
  {
    EndTagFacts();
    ClassifyClose(EndTag());
  }

  /** `{% endfor %}` is trimmed, is not a variable, holds no `in` and mentions `endfor`. */
  lemma {:induction false} EndTagFacts()
    ensures var tag := EndTag();
      Trim(tag) == tag && !StartsWith(tag, "{{") && !Contains(tag, "in") && Contains(tag, "endfor")
  {
    EndTagTrimmed();
    EndTagWords();
  }

  lemma {:induction false} EndTagTrimmed()
    ensures Trim(EndTag()) == EndTag() && !StartsWith(EndTag(), "{{")
  {
    var tag := EndTag();
    DelimitedEnds("{%", "endfor", "%}");
    assert Trimmed(tag);
    TrimmedFixed(tag);
    assert !StartsWith(tag, "{{") by { assert tag[1] == '%'; }
  }

  lemma {:induction false} EndTagWords()
    ensures !Contains(EndTag(), "in") && Contains(EndTag(), "endfor")
  {
    var x := "endfor";
    var tag := EndTag();
    assert tag == "{% endfor %}";
    assert 'i' !in tag;
    FirstCharNeeded(tag, "in");
    assert OccursAt(x, x, 0);
    OccursInDelimited("{%", x, "%}", x, 0);
  }

  /** Emitting nodes while a loop is open on top of the stack fills that loop's body. */
  lemma {:induction false} EmitAllInto(ast: seq<JinjaNode>, stack: seq<JinjaNode>, v: string, it: string,
                                       b0: seq<JinjaNode>, body: seq<JinjaNode>)
    ensures EmitAll(ParserState(ast, stack + [ForLoop(v, it, b0)]), body)
         == ParserState(ast, stack + [ForLoop(v, it, b0 + body)])
    decreases |body|
  {
    if body == [] {
      assert b0 + body == b0;
    } else {
      var st := ParserState(ast, stack + [ForLoop(v, it, b0)]);
      var s := st.stack;
      assert s[..|s| - 1] == stack;
      assert Emit(st, body[0]) == ParserState(ast, stack + [ForLoop(v, it, b0 + [body[0]])]);
      EmitAllInto(ast, stack, v, it, b0 + [body[0]], body[1..]);
      assert b0 + [body[0]] + body[1..] == b0 + body;
    }
  }

  /** Parsing the printed tags of a well-formed forest appends that forest where the parser stands. */
  lemma {:induction false} RunPrinted(st: ParserState, f: seq<JinjaNode>)
    requires AllLoops(st.stack)
    requires WellFormedForest(f)
    ensures RunFrom(st, PrintForest(f)) == EmitAll(st, f)
    decreases f
  {
    if f != [] {
      var n := f[0];
      var rest := f[1..];
      assert WellFormedNode(n);
      assert WellFormedForest(rest) by {
        forall k | 0 <= k < |rest| ensures WellFormedNode(rest[k]) {
          assert rest[k] == f[k + 1];
        }
      }
      var head := match n
        case Variable(path) => [VarTag(path)]
        case ForLoop(v, it, body) => [ForTag(v, it)] + PrintForest(body) + [EndTag()];
      assert PrintForest(f) == head + PrintForest(rest);
      RunAppend(st, head, PrintForest(rest));
      var mid := RunFrom(st, head);
      RunPrintedNode(st, n);
      assert mid == Emit(st, n);
      RunPrinted(mid, rest);
    }
  }

  lemma {:induction false} RunOne(st: ParserState, t: string)
    ensures RunFrom(st, [t]) == Step(st, t)
  {
    assert [t][1..] == [];
  }

  lemma {:induction false} RunVarTag(st: ParserState, path: seq<string>)
    requires |path| >= 1 && forall k :: 0 <= k < |path| ==> IsIdent(path[k])
    ensures RunFrom(st, [VarTag(path)]) == Emit(st, Variable(path))
  {
    RunOne(st, VarTag(path));
    VarTagClassified(path);
  }

  lemma {:induction false} RunForTag(st: ParserState, v: string, it: string)
    requires IsIdent(v) && IsIdent(it)
    ensures RunFrom(st, [ForTag(v, it)]) == ParserState(st.ast, st.stack + [ForLoop(v, it, [])])
  {
    RunOne(st, ForTag(v, it));
    ForTagClassified(v, it);
  }

  lemma {:induction false} RunEndTag(st: ParserState)
    requires |st.stack| > 0
    ensures RunFrom(st, [EndTag()])
         == Emit(ParserState(st.ast, st.stack[..|st.stack| - 1]), st.stack[|st.stack| - 1])
  {
    RunOne(st, EndTag());
    EndTagClassified();
  }

  /** One printed node: a variable is emitted; a loop is opened, filled and closed. */
  lemma {:induction false} RunPrintedNode(st: ParserState, n: JinjaNode)
    requires AllLoops(st.stack)
    requires WellFormedNode(n)
    ensures n.Variable? ==> RunFrom(st, [VarTag(n.path)]) == Emit(st, n)
    ensures n.ForLoop? ==>
      RunFrom(st, [ForTag(n.loopVar, n.iterable)] + PrintForest(n.body) + [EndTag()]) == Emit(st, n)
    decreases n, 1
  {
    match n
    case Variable(path) =>
      RunVarTag(st, path);
    case ForLoop(v, it, body) =>
      RunPrintedLoop(st, n);
  }

  lemma {:induction false} RunPrintedLoop(st: ParserState, n: JinjaNode)
    requires AllLoops(st.stack)
    requires n.ForLoop? && WellFormedNode(n)
    ensures RunFrom(st, [ForTag(n.loopVar, n.iterable)] + PrintForest(n.body) + [EndTag()]) == Emit(st, n)
    decreases n, 0
  {
    var open := ParserState(st.ast, st.stack + [ForLoop(n.loopVar, n.iterable, [])]);
    assert AllLoops(open.stack);
    RunPrinted(open, n.body);
    LoopAssembled(st, n.loopVar, n.iterable, n.body);
  }

  /** The tags of a loop, given that its body's tags fill the freshly opened loop. */
  lemma {:induction false} LoopAssembled(st: ParserState, v: string, it: string, body: seq<JinjaNode>)
    requires IsIdent(v) && IsIdent(it)
    requires var open := ParserState(st.ast, st.stack + [ForLoop(v, it, [])]);
      RunFrom(open, PrintForest(body)) == EmitAll(open, body)
    ensures RunFrom(st, [ForTag(v, it)] + PrintForest(body) + [EndTag()]) == Emit(st, ForLoop(v, it, body))
  {
    var filled := ParserState(st.ast, st.stack + [ForLoop(v, it, body)]);
    assert [ForTag(v, it)] + PrintForest(body) + [EndTag()] == [ForTag(v, it)] + (PrintForest(body) + [EndTag()]);
    LoopOpened(st, v, it, PrintForest(body) + [EndTag()]);
    LoopFilled(st, v, it, body, [EndTag()]);
    RunEndTag(filled);
    assert filled.stack[..|filled.stack| - 1] == st.stack;
  }

  /** The first tag of a printed loop opens it. */
  lemma {:induction false} LoopOpened(st: ParserState, v: string, it: string, rest: seq<string>)
    requires IsIdent(v) && IsIdent(it)
    ensures RunFrom(st, [ForTag(v, it)] + rest)
         == RunFrom(ParserState(st.ast, st.stack + [ForLoop(v, it, [])]), rest)
  {
    RunForTag(st, v, it);
    RunAppend(st, [ForTag(v, it)], rest);
  }

  /** The body's tags fill the open loop, leaving the tags after them (the closing tag) to run. */
  lemma {:induction false} LoopFilled(st: ParserState, v: string, it: string, body: seq<JinjaNode>, rest: seq<string>)
    requires var open := ParserState(st.ast, st.stack + [ForLoop(v, it, [])]);
      RunFrom(open, PrintForest(body)) == EmitAll(open, body)
    ensures RunFrom(ParserState(st.ast, st.stack + [ForLoop(v, it, [])]), PrintForest(body) + rest)
         == RunFrom(ParserState(st.ast, st.stack + [ForLoop(v, it, body)]), rest)
  {
    var open := ParserState(st.ast, st.stack + [ForLoop(v, it, [])]);
    var filled := ParserState(st.ast, st.stack + [ForLoop(v, it, body)]);
    EmitAllInto(st.ast, st.stack, v, it, [], body);
    assert [] + body == body;
    assert EmitAll(open, body) == filled;
    RunAppend(open, PrintForest(body), rest);
  }

  /** Appending a forest to an empty stack state adds it to the forest. */
  lemma {:induction false} EmitAllTop(ast: seq<JinjaNode>, f: seq<JinjaNode>)
    ensures EmitAll(ParserState(ast, []), f) == ParserState(ast + f, [])
    decreases |f|
  {
    if f == [] {
      assert ast + f == ast;
    } else {
      EmitAllTop(ast + [f[0]], f[1..]);
      assert ast + [f[0]] + f[1..] == ast + f;
    }
  }

  /** Round trip: the parser rebuilds every well-formed forest from its printed tags. */
  lemma {:induction false} ParsePrinted(f: seq<JinjaNode>)
    requires WellFormedForest(f)
    ensures Parse(PrintForest(f)) == f
    ensures RunFrom(Initial, PrintForest(f)).stack == []
  {
    RunPrinted(Initial, f);
    EmitAllTop([], f);
    assert [] + f == f;
  }

  /**
   * A loop still open when the tags run out is dropped together with everything
   * inside it; what was complete before it is kept.
   */
  lemma {:induction false} UnclosedLoopDropped(f: seq<JinjaNode>, v: string, it: string, g: seq<JinjaNode>)
    requires WellFormedForest(f) && WellFormedForest(g)
    requires IsIdent(v) && IsIdent(it)
    ensures Parse(PrintForest(f) + [ForTag(v, it)] + PrintForest(g)) == f
  {
    var a := PrintForest(f) + [ForTag(v, it)];
    RunAppend(Initial, a, PrintForest(g));
    PrintedThenOpened(f, v, it);
    OpenLoopFilled(f, v, it, g);
  }

  /** After the tags of a forest and one loop header, the forest is built and the loop open. */
  lemma {:induction false} PrintedThenOpened(f: seq<JinjaNode>, v: string, it: string)
    requires WellFormedForest(f) && IsIdent(v) && IsIdent(it)
    ensures RunFrom(Initial, PrintForest(f) + [ForTag(v, it)]) == ParserState(f, [ForLoop(v, it, [])])
  {
    ParsePrinted(f);
    RunAppend(Initial, PrintForest(f), [ForTag(v, it)]);
    assert RunFrom(Initial, PrintForest(f)) == ParserState(f, []);
    RunForTag(ParserState(f, []), v, it);
    assert [] + [ForLoop(v, it, [])] == [ForLoop(v, it, [])];
  }

  /** The tags of a forest `g` read inside an open loop all land in that loop's body. */
  lemma {:induction false} OpenLoopFilled(f: seq<JinjaNode>, v: string, it: string, g: seq<JinjaNode>)
    requires WellFormedForest(g)
    ensures RunFrom(ParserState(f, [ForLoop(v, it, [])]), PrintForest(g)) == ParserState(f, [ForLoop(v, it, g)])
  {
    var open := ParserState(f, [ForLoop(v, it, [])]);
    assert AllLoops(open.stack);
    RunPrinted(open, g);
    assert [] + [ForLoop(v, it, [])] == [ForLoop(v, it, [])];
    EmitAllInto(f, [], v, it, [], g);
    assert [] + g == g;
    assert [] + [ForLoop(v, it, g)] == [ForLoop(v, it, g)];
  }

}
