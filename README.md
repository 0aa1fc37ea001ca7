# toolcraft template schema and heading tree, in Dafny

This project models the two algorithms of the toolcraft repository that contain real
logic, and proves properties of both.

1. **Template placeholder to JSON schema** (`docx_to_json` after its file-reading step):
   - the lexer `extract_jinja2_tags` finds `{{ … }}` and `{% … %}` tags in a text;
   - the parser `parse_jinja2_ast` folds the tags into a forest of variables and `for` loops, using a stack of open loops;
   - the synthesiser `ast_to_json` / `merge_value` / `insert_path` folds the forest into a nested object. Leaves are `""` and each loop becomes a one-element array.

   `Pipeline.SchemaOfText` composes the three stages.
2. **Heading tree** (`extract_docx_headings` / `insert_node`):
   - a sequence of paragraphs, each with an optional style and a text, becomes a forest of headings;
   - a paragraph whose style parses as a `usize` is a heading of that level, and it goes under the nearest node on the path stack whose level is strictly smaller;
   - a paragraph without a style is content of the node on top of the stack.

   The raw `*mut Node` pointers of the original become an arena: a sequence of nodes, with children stored as index sequences and the path stack as a `seq<nat>`.

Files:

| file | module | contents |
|---|---|---|
| `wrappers.dfy` | `Wrappers` | `Option` |
| `text.dfy` | `Text` | the `str` operations the parser uses: `trim`, `split`, `split_whitespace`, `trim_*_matches`, `contains` |
| `extractor.dfy` | `Extractor` | the lexer, written as a leftmost-first scan over positions |
| `parser.dfy` | `Parser` | `Classify` (trim, then the if-chain `ClassifyTag`), `Perform` and `Parse` as a fold; the method `ParseJinja2Ast` runs the original loop and is proved equal to it; a printer with the round trip |
| `schema.dfy` | `Schema` | `Value`, `Inserted`/`MergeForest`/`SchemaOf`, and the methods `InsertPath`, `MergeValue`, `AstToJson` |
| `pipeline.dfy` | `Pipeline` | `SchemaOfText`, `DocxToJson`, end-to-end properties and examples |
| `usize.dfy` | `Usize` | `str::parse::<usize>` on a 64-bit target, and `usize::to_string` |
| `headings.dfy` | `Headings` | the reference definition of the heading forest (parent = last earlier heading of a smaller level), the arena, and the path stack |
| `scan.dfy` | `Scan` | `KindOf`, `Outline`, the methods `InsertNode`, `AttachContent`, `ExtractDocxHeadings`, and document-level properties |

How the heading scanner is specified:
- `Headings.Arena(hs)` is the arena that the headings `hs` produce.
- `Headings.Roots(hs)` is the `tree` vector, as indices.
- `Headings.StackOf(Levels(hs))` is the path stack.
- `Scan.Scanned` says that the methods' state is exactly these three.
- `InsertNode`, `AttachContent` and the loop of `ExtractDocxHeadings` keep `Scanned` as an invariant.
- `ExtractDocxHeadings` returns `Headings.Forest(Outline(doc))`.
- The lemmas about `Forest`, `Path` and `StackOf` state what the source promises about the tree.

Two behaviours of the source worth noting:
- The source accepts style `"0"` (level 0) and a leading `+`. `usize::from_str` allows both.
- Paragraphs before the first heading are printed and then dropped; the result holds only the heading forest.

## Model

| member | source | states |
|---|---|---|
| Extractor.FindCloser | src/jinjia2/extractor.rs:5 | the result is the first position at or after `j` where the closer `c}` begins; `None` means there is none |
| Extractor.MatchAt | src/jinjia2/extractor.rs:5 | a match tried at `i` spans at least the four delimiter characters and stays inside the text |
| Extractor.MatchIsTag | src/jinjia2/extractor.rs:5 | every match is an opener followed by the first matching closer that begins two or more characters later, with nothing after it (the non-greedy `.*?`) |
| Extractor.TagMatches | src/jinjia2/extractor.rs:5 | conversely, a whole tag placed anywhere in a text is exactly what the pattern matches at that position |
| Extractor.ScanFrom | src/jinjia2/extractor.rs:7-10 | every reported span lies inside the text and is at least four characters long |
| Extractor.ScanIsLeftmost | src/jinjia2/extractor.rs:7-10 | the scan keeps the promise of `find_iter`: each span is a match, spans come in order without overlapping, and no match starts anywhere the scan skipped |
| Extractor.ScanUnique | src/jinjia2/extractor.rs:7-10 | that promise determines the spans: any span list that satisfies it is the scan's result |
| Extractor.OrderedSpans | src/jinjia2/extractor.rs:7-10 | any two spans lie strictly one after the other |
| Extractor.ExtractJinja2Tags | src/jinjia2/extractor.rs:4-11 | one tag per span, in position order; each tag is the substring of the input at its span and is a whole match of the pattern |
| Extractor.NoOpenerNoTags | src/jinjia2/extractor.rs:7-10 | a text containing neither `{{` nor `{%` yields no tags |
| Extractor.UnclosedOpenerSkipped | src/jinjia2/extractor.rs:7-10 | an opener with no later closer yields no tag; the scan resumes at the next character |
| Extractor.LexRender | src/jinjia2/extractor.rs:4-11 | lexing a text made of whole tags and `{`-free literal text gives back exactly its tags, in order |
| Pipeline.MultilineTagExample | src/jinjia2/extractor.rs:5 | with `(?s)`, a tag may span a line break |
| Pipeline.PrintedAreTags | src/jinjia2/extractor.rs:5 | every tag that the printer writes for a well-formed forest is a whole match of the pattern |
| Text.Trim | src/jinjia2/parser.rs:18 | `str::trim`: the result is the input with its whitespace padding removed, and it neither starts nor ends with whitespace |
| Text.TrimPadded | src/jinjia2/parser.rs:18 | trimming a text that has non-blank ends and whitespace padding gives the text back |
| Text.TrimStartMatches | src/jinjia2/parser.rs:21 | `trim_start_matches`: the result is a suffix of the input that no longer starts with the pattern; an input that does not start with the pattern is unchanged |
| Text.TrimEndMatches | src/jinjia2/parser.rs:21 | the mirror image of `trim_start_matches` at the end of the text |
| Text.Split | src/jinjia2/parser.rs:22 | `split('.')`: at least one piece; joined with the separator, the pieces rebuild the input; no piece holds the separator |
| Text.SplitJoin | src/jinjia2/parser.rs:22 | splitting undoes joining when no piece holds the separator |
| Text.SplitWhitespaceTokens | src/jinjia2/parser.rs:33 | every `split_whitespace` token is non-empty and holds no whitespace |
| Text.SplitJoinSpaces | src/jinjia2/parser.rs:33 | `split_whitespace` undoes joining tokens with single spaces |
| Parser.VariablePath | src/jinjia2/parser.rs:21-22 | a `{{ e }}` path has one segment per `.`-separated piece of the inner text, so it is never empty; each segment is trimmed and holds no `.` |
| Parser.VariableSegments | src/jinjia2/parser.rs:21-22 | segment `k` of the path is piece `k` of the inner text, split on `.`, trimmed |
| Parser.BlankVariablePath | src/jinjia2/parser.rs:21-22 | a variable tag holding only whitespace names the path `[""]`, one empty segment |
| Parser.EmptyVariableExample | src/jinjia2/parser.rs:21-22 | `{{ }}` names `[""]` |
| Parser.SpacedDotDropped | src/jinjia2/parser.rs:21-22 | spaces around the dot are dropped: `{{ x . y }}` names `[x, y]` for dot-free names without padding |
| Parser.SpacedDotExample | src/jinjia2/parser.rs:21-22 | `{{ a . b }}` names `["a", "b"]` |
| Parser.FirstIndexOf | src/jinjia2/parser.rs:34 | `position`: the first index holding `x`; `None` exactly when `x` is absent |
| Parser.PartOrEmpty | src/jinjia2/parser.rs:62-70 | `get(k).to_string_or_empty()`: the piece at `k`, or `""` past the end |
| Parser.LoopHeader | src/jinjia2/parser.rs:34-47 | a loop is opened exactly when the token two places after the first `for` is `in`; the loop variable is the token in between; the iterable is the token after `in`, or `""` |
| Parser.ClassifyTrimmed | src/jinjia2/parser.rs:18 | the tag is trimmed before it is classified, so whitespace around a tag never changes what the parser does with it |
| Parser.LoopWords | src/jinjia2/parser.rs:33-40 | a loop header read from the whitespace tokens of a tag has a non-empty, whitespace-free loop variable and a whitespace-free (possibly empty) iterable |
| Parser.Emit | src/jinjia2/parser.rs:25-29 | when the top of the stack is a loop, the node is appended to that loop's body and the forest and the rest of the stack are unchanged; with an empty stack the node is appended to the forest; the stack keeps its height and holds only loops |
| Parser.Perform | src/jinjia2/parser.rs:17-57 | one iteration, once the tag is classified: a variable is emitted where the parser stands; an open pushes an empty loop; an `endfor` pops the innermost loop and emits it into the loop below or the forest, and with an empty stack leaves the state unchanged; a skipped tag leaves it unchanged; only loops are ever on the stack |
| Parser.Act | src/jinjia2/parser.rs:24-55 | the branch bodies of the loop, updating the forest and the stack of open loops, do what `Perform` says |
| Parser.RunCons | src/jinjia2/parser.rs:17-57 | running over the tags from position `i` is one iteration on tag `i` followed by the run over the rest |
| Parser.ParseJinja2Ast | src/jinjia2/parser.rs:13-60 | the imperative loop over the tags returns `Parse(tags)` |
| Parser.RunAppend | src/jinjia2/parser.rs:17-57 | running over two tag lists in turn is running over their concatenation |
| Parser.StackHoldsLoops | src/jinjia2/parser.rs:15 | whatever the tags, the stack holds only `ForLoop` nodes |
| Parser.UnmatchedEndIgnored | src/jinjia2/parser.rs:48-49 | an `endfor` met while no loop is open changes neither the forest nor the stack |
| Parser.VarTagPath | src/jinjia2/parser.rs:20-23 | the path of a printed `{{ a.b.c }}` tag reads back unchanged |
| Parser.ForTagHeader | src/jinjia2/parser.rs:32-40 | the header of a printed `{% for v in it %}` reads back as `(v, it)` |
| Parser.EndTagClassified | src/jinjia2/parser.rs:48 | `{% endfor %}` closes a loop |
| Parser.RunPrinted | src/jinjia2/parser.rs:17-57 | from any state whose stack holds only loops, the printed tags of a well-formed forest append that forest where the parser stands |
| Parser.ParsePrinted | src/jinjia2/parser.rs:13-60 | round trip: parsing the printed tags of a well-formed forest gives the forest back, and leaves the stack empty |
| Parser.UnclosedLoopDropped | src/jinjia2/parser.rs:59 | a loop still open when the tags run out is dropped together with its whole body; what was complete before it is kept |
| Schema.InsertPath | src/jinjia2/schema.rs:33-51 | the imperative cursor walk returns `Inserted(target, path)` |
| Schema.InsertedReaches | src/jinjia2/schema.rs:40-42 | after inserting a non-empty path, following it through objects reaches `""` |
| Schema.InsertedFrame | src/jinjia2/schema.rs:43-48 | every path that parts ways with the inserted one reaches what it reached before |
| Schema.OtherKeysKept | src/jinjia2/schema.rs:43-48 | every top-level key other than the path's first is present after the insertion exactly when it was before, with the same value |
| Schema.InsertedPanics | src/jinjia2/schema.rs:45-48 | `insert_path` panics exactly when some key before the last already holds a non-object |
| Schema.MergeValue | src/jinjia2/schema.rs:15-31 | `merge_value`, with its inner loop over a loop body, returns `MergeNode(target, node)` |
| Schema.AstToJson | src/jinjia2/schema.rs:5-13 | `ast_to_json` returns `SchemaOf(ast)` |
| Schema.SchemaShaped | src/jinjia2/schema.rs:15-31 | every schema that is produced is an object built only from objects, one-element arrays of objects, and `""` |
| Schema.EmptySchema | src/jinjia2/schema.rs:5-13 | an empty forest gives `{}` |
| Schema.MergeForestAppend | src/jinjia2/schema.rs:8-10 | merging two node lists in turn is merging their concatenation; a panic stops the fold |
| Schema.LastVariableWins | src/jinjia2/schema.rs:41-42 | the last variable written decides its path: the path reaches `""` even where an object or array stood |
| Schema.LastLoopWins | src/jinjia2/schema.rs:20-29 | the last loop over an iterable stores a one-element array holding its body's object, whatever stood there before |
| Schema.LoopVarUnused | src/jinjia2/schema.rs:20 | the loop variable plays no part in the schema |
| Pipeline.DocxToJson | src/jinjia2/mod.rs:8-10 | the three stages run in turn compute `SchemaOfText(text)` |
| Pipeline.SchemaOfPrinted | src/jinjia2/mod.rs:8-10 | for a text printed from a well-formed forest, the pipeline parses exactly that forest and gives its schema |
| Pipeline.PlainTextSchema | src/jinjia2/mod.rs:8-10 | a text with no tag opener has the schema `{}` |
| Pipeline.TrailingEndForIgnored | src/jinjia2/parser.rs:48-49 | appending an unmatched `{% endfor %}` to a printed template does not change its schema |
| Pipeline.LoopExample | src/jinjia2/mod.rs:8-10 | `{% for item in items %}{{ item.name }}{% endfor %}` gives `{"items":[{"item":{"name":""}}]}` |
| Pipeline.StrayEndForExample | src/jinjia2/parser.rs:48-49 | `{{ a }}{% endfor %}` has the schema of `{{ a }}`, which is `{"a":""}` |
| Pipeline.PanicExample | src/jinjia2/schema.rs:45-48 | `{{ a }}{{ a.b }}` panics at key `a` |
| Usize.ParseUsize | src/docx/scan.rs:54 | a parsed level is below 2^64 |
| Usize.ParseDecimal | src/docx/scan.rs:54 | every `usize` parses back from its decimal spelling, with or without a leading `+` |
| Usize.NonDigitRejected | src/docx/scan.rs:54 | a style starting with a character that is neither a digit nor `+` is not a level |
| Usize.RejectedExamples | src/docx/scan.rs:54 | `""`, `"+"`, `"-1"` and `"Heading1"` are rejected |
| Usize.AcceptedExamples | src/docx/scan.rs:54 | `"0"` is level 0; `"+7"` and `"007"` are level 7 |
| Usize.Bounds | src/docx/scan.rs:54 | the largest `usize` parses; one more overflows and is rejected |
| Headings.LastBelow | src/docx/scan.rs:15-25 | the last index before `k` whose level is below `level`: every index between it and `k` is at or above `level`; `None` means no earlier index is below |
| Headings.ChildrenBounds | src/docx/scan.rs:17-18 | the children lists hold only later headings whose parent is the node |
| Headings.ChildrenComplete | src/docx/scan.rs:17-18 | children lists are in document order and miss no heading that hangs under the node |
| Headings.ArenaAt | src/docx/scan.rs:55-61 | arena node `i` holds heading `i`'s level, title and contents, and the indices of the headings that hang under it |
| Headings.ForestPreorder | src/docx/scan.rs:51-61 | flattening the forest in pre-order gives back every heading exactly once, in document order |
| Headings.ForestDeepening | src/docx/scan.rs:17-18 | in every tree of the forest, every child is of a strictly greater level than its parent |
| Headings.Path | src/docx/scan.rs:17-21 | the chain down to `i` ends at `i` and holds no later heading |
| Headings.PathShape | src/docx/scan.rs:17-21 | a path starts at a root, each entry is the parent of the next, and levels strictly increase along it |
| Headings.StackTop | src/docx/scan.rs:20 | the top of the path stack is the newest heading |
| Headings.StackOnRightEdge | src/docx/scan.rs:18-20 | each stack entry is the last child of the entry below it, and the bottom entry is the last root; so pushing a child never moves a node that the stack refers to |
| Headings.PopStep | src/docx/scan.rs:22-24 | popping an entry whose level is not below the new level keeps the stack a path, and does not change which entry the search finds |
| Headings.TopBelow | src/docx/scan.rs:15-25 | the entry nearest the top of the stack with a smaller level is on the stack and has a smaller level |
| Headings.SearchStack | src/docx/scan.rs:15-25 | on a path stack, the pop loop finds the same node as the last earlier heading of a smaller level |
| Headings.ParentOnStack | src/docx/scan.rs:14-30 | a new heading's parent is the entry nearest the top of the path stack whose level is strictly smaller; when there is none it is a root |
| Headings.ArenaAppend | src/docx/scan.rs:17-29 | a new heading adds one node with no children; only its parent gains it, as its last child; every other node is left as it was |
| Headings.RootsAppend | src/docx/scan.rs:27 | the roots gain the new heading exactly when it has no parent |
| Headings.StackAppend | src/docx/scan.rs:20-29 | after a heading, the path stack is its parent's path with the new heading pushed on top |
| Scan.KindOf | src/docx/scan.rs:52-54 | a heading's level is a `usize` |
| Scan.InsertNode | src/docx/scan.rs:14-30 | `insert_node` keeps the arena, the roots and the path stack equal to those of the headings so far plus the new one; the new node ends up on top of the stack |
| Scan.AddChild | src/docx/scan.rs:17-21 | the branch that hangs the node under the top of the stack keeps the arena, the roots and the stack equal to those of the longer heading list, with the new node on top |
| Scan.AddRoot | src/docx/scan.rs:27-29 | the branch taken when the stack runs empty keeps that state too, and leaves the new root alone on the stack |
| Scan.ChildInserted | src/docx/scan.rs:17-21 | when the top of the stack has a smaller level, hanging the node under it and pushing it gives the state of the longer heading list |
| Scan.RootInserted | src/docx/scan.rs:27-29 | when the stack runs empty, the node becomes the last root and the stack holds only it |
| Scan.AttachContent | src/docx/scan.rs:63-75 | a plain paragraph extends the contents of the top node, which are created on first use; with an empty stack it goes nowhere; other nodes are unchanged |
| Scan.AttachedArena | src/docx/scan.rs:64-71 | attaching text changes only the newest node's contents |
| Scan.ScanChild | src/docx/scan.rs:52-77 | one child of the body: a numbered style inserts a heading, an unparsable style and a non-paragraph do nothing, no style attaches content; the state stays that of the outline so far |
| Scan.OutlineSnoc | src/docx/scan.rs:51-78 | the outline of a longer document absorbs its last child after the rest |
| Scan.ExtractDocxHeadings | src/docx/scan.rs:47-81 | the imperative scan returns `HeadingForest(doc)` |
| Scan.OutlineCongruent | src/docx/scan.rs:51-78 | what follows a prefix of the document depends only on the headings that the prefix produced |
| Scan.SkippedChildDropped | src/docx/scan.rs:52-54 | a non-paragraph child, or a paragraph whose style is not a `usize`, is neither a heading nor content |
| Scan.PlainPrefixIgnored | src/docx/scan.rs:72-75 | children before the first heading contribute nothing |
| Scan.SectionContents | src/docx/scan.rs:63-71 | the plain paragraphs between a heading and the next one become its contents in order; the contents are `None` exactly when there are none |
| Scan.OutlineHeadings | src/docx/scan.rs:55-61 | the headings keep the levels and titles of the heading paragraphs, in order |
| Scan.ScanPreorder | src/docx/scan.rs:47-81 | the forest lists every heading paragraph once, in document order, with its level and title, and every child is deeper than its parent |
| Scan.LevelZeroExample | src/docx/scan.rs:54 | style `"0"` is a heading of level 0 |
| Scan.ScanExample | src/docx/scan.rs:14-30 | levels 1, 2, 2, 1 titled A–D give `A{B, C}, D` |

## Left out

- File, zip and XML reading (`src/jinjia2/docx.rs`, the first step of `docx_to_json`, `docx_rs`). The text and the paragraph sequence are inputs, and a paragraph is only its style id and `raw_text()`.
- The `regex` crate. The model states the meaning of the one pattern directly and does not model regex machinery in general.
- `println!` output: the parser's "Found for loop tag" line and the scanner's orphan-content line. An orphan paragraph is dropped, as in the source.
- Raw pointers and `unsafe`. They are replaced by arena indices. `Headings.StackOnRightEdge` shows why the original pointers stay valid: pushing a child onto a node whose children no stack entry points into never moves a node the stack refers to.
- `Scan`'s `&mut` parameters are modelled as values passed in and returned, not as a heap-allocated object.
- `Scan.ExtractDocxHeadings` returns the forest without the `Result` wrapper, because the source never returns `Err`.
- `serde_json::Map` key order. The model uses a `map`, so it says nothing about the order of keys when serialised.
- Panics. The `unwrap` panic in `insert_path` is modelled as the `Panicked(key)` result and propagated; the stack unwinding is left out.
- `Usize.ParseUsize`: assumes a 64-bit `usize`.
- `Text.IsWhitespace`: uses the Unicode White_Space list of Rust's `char::is_whitespace`; there is no Unicode normalisation.
- `Parser.ParsePrinted`: the round trip is stated for forests whose names are non-empty, free of whitespace, `.`, `{`, `}` and `%` (`IsIdent`). Other names are not printed back to the same tags.
- `Headings.Trees`: drops a child index that does not point forward into the arena; this never happens for `Arena(hs)`.
