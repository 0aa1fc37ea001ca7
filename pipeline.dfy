/**
 * `docx_to_json` after its first step: the document's text is lexed into tags, the
 * tags are parsed into a forest, and the forest is folded into a schema.
 */
module Pipeline {
  import opened Text
  import opened Extractor
  import opened Parser
  import opened Schema

  /** The schema a template text describes. */
  function SchemaOfText(text: string): Result<Value> {
    SchemaOf(Parse(ExtractJinja2Tags(text)))
  }

  /** The three stages of `docx_to_json`, run in turn on the extracted text. */
  method DocxToJson(text: string) returns (r: Result<Value>)
    ensures r == SchemaOfText(text)
  {
    var tags := ExtractJinja2Tags(text);
    var ast := ParseJinja2Ast(tags);
    r := AstToJson(ast);
  }

  // ------------------------------------------------------------------
  // Printed tags are whole matches of the lexer's pattern.

  /** A delimited text is one whole match when the closer's first character is absent from it. */
  lemma {:induction false} DelimitedIsTag(d: char, x: string)
    requires d == '{' || d == '%'
    requires CloserOf(d) !in x
    ensures IsTag(Delimited(['{', d], x, [CloserOf(d), '}']))
  {
    var c := CloserOf(d);
    var t := Delimited(['{', d], x, [c, '}']);
    DelimitedEnds(['{', d], x, [c, '}']);
    assert t[|t| - 2] == c;
    forall k: nat | 2 <= k < |t| - 2 ensures !CloserAt(t, c, k) {
      if 3 <= k < 3 + |x| {
        assert t[k] == x[k - 3];
      } else {
        assert t[k] == ' ';
      }
    }
  }

  lemma {:induction false} VarTagIsTag(path: seq<string>)
    requires |path| >= 1 && forall k :: 0 <= k < |path| ==> IsIdent(path[k])
    ensures IsTag(VarTag(path))
  {
    JoinEnds(path);
    DelimitedIsTag('{', JoinWith(path, '.'));
  }

  lemma {:induction false} ForTagIsTag(v: string, it: string)
    requires IsIdent(v) && IsIdent(it)
    ensures IsTag(ForTag(v, it))
  {
    HeaderText(v, it);
    assert '%' !in "for " && '%' !in " in ";
    DelimitedIsTag('%', JoinSpaces(["for", v, "in", it]));
  }

  lemma {:induction false} EndTagIsTag()
    ensures IsTag(EndTag())
  {
    assert '%' !in "endfor";
    DelimitedIsTag('%', "endfor");
  }

  /** Every tag a well-formed forest prints is a whole match of the pattern. */
  lemma {:induction false} PrintedAreTags(f: seq<JinjaNode>)
    requires WellFormedForest(f)
    ensures forall k :: 0 <= k < |PrintForest(f)| ==> IsTag(PrintForest(f)[k])
    decreases f
  {
    if f != [] {
      var rest := f[1..];
      assert WellFormedNode(f[0]);
      assert WellFormedForest(rest) by {
        forall k | 0 <= k < |rest| ensures WellFormedNode(rest[k]) {
          assert rest[k] == f[k + 1];
        }
      }
      PrintedAreTags(rest);
      var head := match f[0]
        case Variable(path) => [VarTag(path)]
        case ForLoop(v, it, body) => [ForTag(v, it)] + PrintForest(body) + [EndTag()];
      match f[0]
      case Variable(path) =>
        VarTagIsTag(path);
      case ForLoop(v, it, body) =>
        ForTagIsTag(v, it);
        EndTagIsTag();
        PrintedAreTags(body);
        assert forall k :: 0 <= k < |head| ==> IsTag(head[k]) by {
          forall k | 0 <= k < |head| ensures IsTag(head[k]) {
            if 0 < k < |head| - 1 {
              assert head[k] == PrintForest(body)[k - 1];
            }
          }
        }
      AllTagsAppend(head, PrintForest(rest));
    }
  }

  lemma {:induction false} AllTagsAppend(a: seq<string>, b: seq<string>)
    requires forall k :: 0 <= k < |a| ==> IsTag(a[k])
    requires forall k :: 0 <= k < |b| ==> IsTag(b[k])
    ensures forall k :: 0 <= k < |a + b| ==> IsTag((a + b)[k])
  {
    forall k | 0 <= k < |a + b| ensures IsTag((a + b)[k]) {
      if k >= |a| {
        assert (a + b)[k] == b[k - |a|];
      }
    }
  }

  /** Each tag piece of a document is one of its tags. */
  lemma {:induction false} TagPieceListed(doc: seq<Piece>, k: nat)
    requires k < |doc| && doc[k].TagPiece?
    ensures doc[k].tag in TagsOf(doc)
    decreases k
  {
    if k > 0 {
      TagPieceListed(doc[1..], k - 1);
      assert doc[1..][k - 1] == doc[k];
    }
  }

  // ------------------------------------------------------------------
  // End-to-end properties.

  /** A document whose literal text has no `{` and whose tags print the forest `f`. */
  predicate PrintsForest(doc: seq<Piece>, f: seq<JinjaNode>) {
    && WellFormedForest(f)
    && TagsOf(doc) == PrintForest(f)
    && forall k :: 0 <= k < |doc| ==> doc[k].TextPiece? ==> '{' !in doc[k].text
  }

  lemma {:induction false} PrintedPiecesWellFormed(doc: seq<Piece>, f: seq<JinjaNode>)
    requires PrintsForest(doc, f)
    ensures forall k :: 0 <= k < |doc| ==> WellFormedPiece(doc[k])
  {
    PrintedAreTags(f);
    forall k | 0 <= k < |doc| ensures WellFormedPiece(doc[k]) {
      if doc[k].TagPiece? {
        TagPieceListed(doc, k);
      }
    }
  }

  /**
   * The text of a document that spells out the forest `f`, with any literal text
   * around its tags, describes exactly the schema of `f`.
   */
  lemma {:induction false} SchemaOfPrinted(doc: seq<Piece>, f: seq<JinjaNode>)
    requires PrintsForest(doc, f)
    ensures Parse(ExtractJinja2Tags(Render(doc))) == f
    ensures SchemaOfText(Render(doc)) == SchemaOf(f)
  {
    PrintedPiecesWellFormed(doc, f);
    LexRender(doc);
    ParsePrinted(f);
  }

  /** Text without `{{` or `{%` has the empty schema. */
  lemma {:induction false} PlainTextSchema(s: string)
    requires !Contains(s, "{{") && !Contains(s, "{%")
    ensures SchemaOfText(s) == Ok(Obj(map[]))
  {
    NoOpenerNoTags(s);
    assert Parse([]) == [];
  }

  lemma {:induction false} RenderAppend(doc: seq<Piece>, p: Piece)
    ensures Render(doc + [p]) == Render(doc) + PieceText(p)
    ensures TagsOf(doc + [p]) == TagsOf(doc) + (if p.TagPiece? then [p.tag] else [])
    decreases |doc|
  {
    if doc == [] {
      assert [] + [p] == [p];
      assert [p][1..] == [];
    } else {
      assert (doc + [p])[0] == doc[0];
      assert (doc + [p])[1..] == doc[1..] + [p];
      RenderAppend(doc[1..], p);
    }
  }

  /** Appending an `{% endfor %}` that closes nothing leaves the schema as it was. */
  lemma {:induction false} TrailingEndForIgnored(doc: seq<Piece>, f: seq<JinjaNode>)
    requires PrintsForest(doc, f)
    ensures SchemaOfText(Render(doc + [TagPiece(EndTag())])) == SchemaOfText(Render(doc))
  {
    var end := TagPiece(EndTag());
    var doc2 := doc + [end];
    RenderAppend(doc, end);
    PrintedPiecesWellFormed(doc, f);
    EndTagIsTag();
    forall k | 0 <= k < |doc2| ensures WellFormedPiece(doc2[k]) {
      if k < |doc| {
        assert doc2[k] == doc[k];
      }
    }
    LexRender(doc2);
    LexRender(doc);
    ParsePrinted(f);
    EndTagClassified();
    UnmatchedEndIgnored(TagsOf(doc), EndTag());
  }

  // ------------------------------------------------------------------
  // Examples.

  /** `{% for item in items %}{{ item.name }}{% endfor %}` describes `{"items": [{"item": {"name": ""}}]}`. */
  lemma LoopExample()
    ensures SchemaOfText("{% for item in items %}" + "{{ item.name }}" + "{% endfor %}")
         == Ok(Obj(map["items" := Arr([Obj(map["item" := Obj(map["name" := Str("")])])])]))
  {
    var f := [ForLoop("item", "items", [Variable(["item", "name"])])];
    var doc := [TagPiece(ForTag("item", "items")), TagPiece(VarTag(["item", "name"])), TagPiece(EndTag())];
    LoopDoc(doc, f);
    SchemaOfPrinted(doc, f);
    LoopSchema(f);
  }

  /** The three tags of the loop example spell out its forest. */
  lemma LoopDoc(doc: seq<Piece>, f: seq<JinjaNode>)
    requires f == [ForLoop("item", "items", [Variable(["item", "name"])])]
    requires doc == [TagPiece(ForTag("item", "items")), TagPiece(VarTag(["item", "name"])), TagPiece(EndTag())]
    ensures PrintsForest(doc, f)
    ensures Render(doc) == "{% for item in items %}" + "{{ item.name }}" + "{% endfor %}"
  {
    IdentExamples();
    assert WellFormedForest(f) by {
      assert WellFormedNode(Variable(["item", "name"]));
      assert WellFormedForest([Variable(["item", "name"])]);
    }
    PrintLoopExample(f);
    assert TagsOf(doc) == PrintForest(f) by {
      assert TagsOf(doc[2..]) == [EndTag()];
      assert TagsOf(doc[1..]) == [VarTag(["item", "name"]), EndTag()];
    }
    RenderLoopExample(doc);
  }

  /** The schema of the loop example's forest. */
  lemma LoopSchema(f: seq<JinjaNode>)
    requires f == [ForLoop("item", "items", [Variable(["item", "name"])])]
    ensures SchemaOf(f) == Ok(Obj(map["items" := Arr([Obj(map["item" := Obj(map["name" := Str("")])])])]))
  {
    var inner := map["name" := Str("")];
    assert Inserted(map[], ["name"]) == Ok(inner);
    assert Inserted(map[], ["item", "name"]) == Ok(map["item" := Obj(inner)]);
    assert MergeForest(map[], [Variable(["item", "name"])]) == Ok(map["item" := Obj(inner)]);
    var top := map["items" := Arr([Obj(map["item" := Obj(inner)])])];
    assert MergeNode(map[], f[0]) == Ok(top);
    assert MergeForest(top, f[1..]) == Ok(top);
  }

  lemma IdentExamples()
    ensures IsIdent("item") && IsIdent("items") && IsIdent("name") && IsIdent("a") && IsIdent("b")
  {
  }

  lemma PrintLoopExample(f: seq<JinjaNode>)
    requires f == [ForLoop("item", "items", [Variable(["item", "name"])])]
    ensures PrintForest(f) == [ForTag("item", "items"), VarTag(["item", "name"]), EndTag()]
  {
    var body := [Variable(["item", "name"])];
    assert PrintForest(body) == [VarTag(["item", "name"])] by {
      assert PrintForest(body[1..]) == [];
    }
    assert PrintForest(f[1..]) == [];
  }

  lemma RenderLoopExample(doc: seq<Piece>)
    requires doc == [TagPiece(ForTag("item", "items")), TagPiece(VarTag(["item", "name"])), TagPiece(EndTag())]
    ensures Render(doc) == "{% for item in items %}" + "{{ item.name }}" + "{% endfor %}"
  {
    RenderTags(ForTag("item", "items"), VarTag(["item", "name"]), EndTag());
    ForTagItems();
    VarTagLiterals();
    EndTagText();
  }

  /** The text of a document of three tags. */
  lemma RenderTags(a: string, b: string, c: string)
    ensures Render([TagPiece(a), TagPiece(b), TagPiece(c)]) == a + b + c
    ensures Render([TagPiece(a), TagPiece(b)]) == a + b
    ensures Render([TagPiece(a)]) == a
  {
    var d := [TagPiece(a), TagPiece(b), TagPiece(c)];
    assert d[1..][1..][1..] == [];
    assert Render(d[1..][1..]) == c;
    var d2 := [TagPiece(a), TagPiece(b)];
    assert d2[1..][1..] == [];
    assert Render(d2[1..]) == b;
    assert [TagPiece(a)][1..] == [];
  }

  lemma ForTagItems()
    ensures ForTag("item", "items") == "{% for item in items %}"
  {
    HeaderText("item", "items");
  }

  lemma VarTagLiterals()
    ensures VarTag(["item", "name"]) == "{{ item.name }}"
    ensures VarTag(["a"]) == "{{ a }}"
    ensures VarTag(["a", "b"]) == "{{ a.b }}"
  {
    assert JoinWith(["item", "name"], '.') == "item.name" by {
      assert JoinWith(["name"], '.') == "name";
    }
    assert JoinWith(["a", "b"], '.') == "a.b" by { assert JoinWith(["b"], '.') == "b"; }
  }

  lemma EndTagText()
    ensures EndTag() == "{% endfor %}"
  {
  }

  /** `{{ a }}{% endfor %}`: the stray `endfor` is ignored, leaving `{"a": ""}`. */
  lemma StrayEndForExample()
    ensures SchemaOfText("{{ a }}" + "{% endfor %}") == SchemaOfText("{{ a }}")
    ensures SchemaOfText("{{ a }}") == Ok(Obj(map["a" := Str("")]))
  {
    var f := [Variable(["a"])];
    var v, e := VarTag(["a"]), EndTag();
    var doc := [TagPiece(v)];
    SingleVariableDoc(doc, f);
    RenderTags(v, e, "");
    assert doc + [TagPiece(e)] == [TagPiece(v), TagPiece(e)];
    TrailingEndForIgnored(doc, f);
    assert SchemaOfText(v + e) == SchemaOfText(v);
    SchemaOfPrinted(doc, f);
    assert MergeForest(map[], f) == Ok(map["a" := Str("")]);
    VarTagLiterals();
    EndTagText();
  }

  lemma SingleVariableDoc(doc: seq<Piece>, f: seq<JinjaNode>)
    requires f == [Variable(["a"])] && doc == [TagPiece(VarTag(["a"]))]
    ensures PrintsForest(doc, f) && Render(doc) == VarTag(["a"])
  {
    IdentExamples();
    assert WellFormedForest(f) by { assert WellFormedNode(f[0]); }
    assert PrintForest(f) == [VarTag(["a"])] by { assert PrintForest(f[1..]) == []; }
    assert TagsOf(doc) == [VarTag(["a"])] by { assert TagsOf(doc[1..]) == []; }
    assert Render(doc) == VarTag(["a"]) by { assert Render(doc[1..]) == ""; }
  }

  /** `{{ a }}{{ a.b }}`: `a` already holds `""`, so descending into it panics. */
  lemma PanicExample()
    ensures SchemaOfText("{{ a }}" + "{{ a.b }}") == Panicked("a")
  {
    var f := [Variable(["a"]), Variable(["a", "b"])];
    var doc := [TagPiece(VarTag(["a"])), TagPiece(VarTag(["a", "b"]))];
    PanicDoc(doc, f);
    SchemaOfPrinted(doc, f);
    PanicSchema(f);
  }

  /** The two tags of the panic example spell out its forest. */
  lemma PanicDoc(doc: seq<Piece>, f: seq<JinjaNode>)
    requires f == [Variable(["a"]), Variable(["a", "b"])]
    requires doc == [TagPiece(VarTag(["a"])), TagPiece(VarTag(["a", "b"]))]
    ensures PrintsForest(doc, f)
    ensures Render(doc) == "{{ a }}" + "{{ a.b }}"
  {
    IdentExamples();
    assert WellFormedForest(f) by { assert WellFormedNode(f[0]) && WellFormedNode(f[1]); }
    assert PrintForest(f) == [VarTag(["a"]), VarTag(["a", "b"])] by {
      assert PrintForest(f[1..][1..]) == [];
      assert PrintForest(f[1..]) == [VarTag(["a", "b"])];
    }
    assert TagsOf(doc) == [VarTag(["a"]), VarTag(["a", "b"])] by {
      assert TagsOf(doc[1..][1..]) == [];
      assert TagsOf(doc[1..]) == [VarTag(["a", "b"])];
    }
    VarTagLiterals();
    assert Render(doc) == "{{ a }}" + "{{ a.b }}" by {
      assert Render(doc[1..][1..]) == "";
      assert Render(doc[1..]) == "{{ a.b }}";
    }
  }

  /** Merging `a.b` after `a`: the string at `a` cannot be descended into. */
  lemma PanicSchema(f: seq<JinjaNode>)
    requires f == [Variable(["a"]), Variable(["a", "b"])]
    ensures SchemaOf(f) == Panicked("a")
  {
    var m := map["a" := Str("")];
    assert MergeNode(map[], f[0]) == Ok(m);
    assert Inserted(m, ["a", "b"]) == Panicked("a");
    assert MergeForest(m, f[1..]) == Panicked("a");
  }

  /** `(?s)`: a tag may span a line break. */
  lemma MultilineTagExample()
    ensures ExtractJinja2Tags("{{ a\n}}") == ["{{ a\n}}"]
  {
    var t := "{{ a\n}}";
    assert IsTag(t) by {
      forall k: nat | 2 <= k < |t| - 2 ensures !CloserAt(t, '}', k) {
        assert t[k] != '}';
      }
    }
    var doc := [TagPiece(t)];
    assert Render(doc) == t by { assert Render(doc[1..]) == ""; }
    assert TagsOf(doc) == [t] by { assert TagsOf(doc[1..]) == []; }
    LexRender(doc);
  }
}
