/**
 * The tag lexer: `extract_jinja2_tags` runs the pattern
 * `(?s)\{\{.*?\}\}|\{%-?.*?-?%\}` over the text with `find_iter`. The model scans
 * positions left to right, as the leftmost-first regex engine does. At a position
 * holding `{{` the first alternative ends at the first `}}` that begins two or more
 * characters later. At a position holding `{%` the second alternative ends at the
 * first `%}` that begins two or more characters later, whether or not the optional
 * dashes are present. `.` matches every character, so a tag may span line breaks.
 */
module Extractor {
  import opened Wrappers
  import opened Text

  /** One regex match: the text `s[start..end]`. */
  datatype Span = Span(start: nat, end: nat)

  /** The delimiter that closes a tag whose second character is `second`. */
  function CloserOf(second: char): char {
    if second == '{' then '}' else '%'
  }

  /** The delimiter `c}` begins at position `k` of `s`. */
  predicate CloserAt(s: string, c: char, k: nat) {
    k + 1 < |s| && s[k] == c && s[k + 1] == '}'
  }

  /** A tag opener (`{{` or `{%`) begins at position `i` of `s`. */
  predicate OpenerAt(s: string, i: nat) {
    i + 1 < |s| && s[i] == '{' && (s[i + 1] == '{' || s[i + 1] == '%')
  }

  /** The first position at or after `j` where the delimiter `c}` begins. */
  function FindCloser(s: string, c: char, j: nat): (r: Option<nat>)
    decreases |s| - j
    ensures r.Some? ==> j <= r.value && CloserAt(s, c, r.value)
    ensures forall k: nat :: j <= k && (r.None? || k < r.value) ==> !CloserAt(s, c, k)
  {
    if j + 1 >= |s| then None
    else if CloserAt(s, c, j) then Some(j)
    else FindCloser(s, c, j + 1)
  }

  /**
   * A whole match of the pattern: an opener, then the first matching closer that
   * begins two or more characters after the opener, at the very end.
   */
  predicate IsTag(t: string) {
    && |t| >= 4
    && OpenerAt(t, 0)
    && CloserAt(t, CloserOf(t[1]), |t| - 2)
    && forall k: nat :: 2 <= k < |t| - 2 ==> !CloserAt(t, CloserOf(t[1]), k)
  }

  /** The end of the match the pattern finds when it tries position `i`, if any. */
  function MatchAt(s: string, i: nat): (r: Option<nat>)
    ensures r.Some? ==> i + 4 <= r.value <= |s|
  {
    if OpenerAt(s, i) then
      match FindCloser(s, CloserOf(s[i + 1]), i + 2)
      case Some(k) => Some(k + 2)
      case None => None
    else None
  }

  /** A match is a tag: an opener, the first closer two or more characters later, nothing after. */
  lemma {:induction false} MatchIsTag(s: string, i: nat)
    requires MatchAt(s, i).Some?
    ensures IsTag(s[i..MatchAt(s, i).value])
  {
    var k := FindCloser(s, CloserOf(s[i + 1]), i + 2).value;
    var t := s[i..k + 2];
    assert OpenerAt(t, 0) && t[1] == s[i + 1];
    forall q: nat | 2 <= q < |t| - 2 ensures !CloserAt(t, CloserOf(t[1]), q) {
      assert !CloserAt(s, CloserOf(s[i + 1]), i + q);
    }
  }

  /** No match of the pattern begins at any position in `[lo, hi)`. */
  predicate NoMatchIn(s: string, lo: nat, hi: nat) {
    forall q: nat :: lo <= q < hi ==> MatchAt(s, q).None?
  }

  /**
   * What `find_iter` promises, starting its search at `from`: each span is a match,
   * spans come in order without overlapping, and no match begins anywhere the scan
   * passed over (before the first span, between two spans, after the last one).
   */
  predicate IsLeftmostScan(s: string, from: nat, sp: seq<Span>) {
    && (forall k :: 0 <= k < |sp| ==> from <= sp[k].start && MatchAt(s, sp[k].start) == Some(sp[k].end))
    && (forall k :: 0 <= k < |sp| - 1 ==> sp[k].end <= sp[k + 1].start)
    && NoMatchIn(s, from, if sp == [] then |s| else sp[0].start)
    && (forall k :: 0 <= k < |sp| - 1 ==> NoMatchIn(s, sp[k].end, sp[k + 1].start))
    && (sp != [] ==> NoMatchIn(s, sp[|sp| - 1].end, |s|))
  }

  /** The spans lie inside `s`, each at least four characters long. */
  predicate InBounds(s: string, sp: seq<Span>) {
    forall k :: 0 <= k < |sp| ==> sp[k].start + 4 <= sp[k].end <= |s|
  }

  /** The matches found from position `from` on: try the pattern, skip one character on failure. */
  function ScanFrom(s: string, from: nat): (r: seq<Span>)
    decreases |s| - from
    ensures InBounds(s, r)
  {
    if from >= |s| then []
    else
      match MatchAt(s, from)
      case Some(e) =>
        var rest := ScanFrom(s, e);
        var r := [Span(from, e)] + rest;
        assert forall k :: 1 <= k < |r| ==> r[k] == rest[k - 1];
        r
      case None => ScanFrom(s, from + 1)
  }

  /** The scan keeps the promise of `find_iter`. */
  lemma {:induction false} ScanIsLeftmost(s: string, from: nat)
    ensures IsLeftmostScan(s, from, ScanFrom(s, from))
    decreases |s| - from
  {
    if from >= |s| {
      assert NoMatchIn(s, from, |s|);
    } else {
      match MatchAt(s, from)
      case Some(e) =>
        ScanIsLeftmost(s, e);
        ScanCons(s, from, e, ScanFrom(s, e));
      case None =>
        ScanIsLeftmost(s, from + 1);
        ScanSkip(s, from, ScanFrom(s, from + 1));
    }
  }

  /** A match at `from` followed by a leftmost scan from its end is a leftmost scan from `from`. */
  lemma {:induction false} ScanCons(s: string, from: nat, e: nat, rest: seq<Span>)
    requires MatchAt(s, from) == Some(e)
    requires IsLeftmostScan(s, e, rest)
    ensures IsLeftmostScan(s, from, [Span(from, e)] + rest)
  {
    var r := [Span(from, e)] + rest;
    ConsMatches(s, from, e, rest);
    ConsGaps(s, from, e, rest);
    assert r[|r| - 1].end == if rest == [] then e else rest[|rest| - 1].end;
  }

  /** Every span of the extended scan is a match starting at or after `from`. */
  lemma {:induction false} ConsMatches(s: string, from: nat, e: nat, rest: seq<Span>)
    requires MatchAt(s, from) == Some(e)
    requires IsLeftmostScan(s, e, rest)
    ensures var r := [Span(from, e)] + rest;
      forall k :: 0 <= k < |r| ==> from <= r[k].start && MatchAt(s, r[k].start) == Some(r[k].end)
  {
    var r := [Span(from, e)] + rest;
    forall k | 0 <= k < |r| ensures from <= r[k].start && MatchAt(s, r[k].start) == Some(r[k].end) {
      if k > 0 { assert r[k] == rest[k - 1]; }
    }
  }

  /** Consecutive spans of the extended scan are ordered, with no match in between. */
  lemma {:induction false} ConsGaps(s: string, from: nat, e: nat, rest: seq<Span>)
    requires IsLeftmostScan(s, e, rest)
    ensures var r := [Span(from, e)] + rest;
      forall k :: 0 <= k < |r| - 1 ==> r[k].end <= r[k + 1].start && NoMatchIn(s, r[k].end, r[k + 1].start)
  {
    var r := [Span(from, e)] + rest;
    forall k | 0 <= k < |r| - 1 ensures r[k].end <= r[k + 1].start && NoMatchIn(s, r[k].end, r[k + 1].start) {
      if k > 0 { assert r[k] == rest[k - 1] && r[k + 1] == rest[k]; }
    }
  }

  /** A position where the pattern fails can be skipped. */
  lemma {:induction false} ScanSkip(s: string, from: nat, rest: seq<Span>)
    requires MatchAt(s, from).None?
    requires IsLeftmostScan(s, from + 1, rest)
    ensures IsLeftmostScan(s, from, rest)
  {
  }

  /** The spans of all tags of `s`, in order. */
  function Spans(s: string): seq<Span> {
    ScanFrom(s, 0)
  }

  /** `extract_jinja2_tags`: the text of every match, in order of position. */
  function ExtractJinja2Tags(s: string): (tags: seq<string>)
    ensures |tags| == |Spans(s)|
    ensures forall k :: 0 <= k < |tags| ==>
              Spans(s)[k].start < Spans(s)[k].end <= |s| && tags[k] == s[Spans(s)[k].start..Spans(s)[k].end]
    ensures forall k :: 0 <= k < |tags| ==> IsTag(tags[k])
  {
    var sp := Spans(s);
    ScanIsLeftmost(s, 0);
    forall k | 0 <= k < |sp| ensures IsTag(s[sp[k].start..sp[k].end]) {
      MatchIsTag(s, sp[k].start);
    }
    seq(|sp|, k requires 0 <= k < |sp| => s[sp[k].start..sp[k].end])
  }

  /** The scan's contract determines its result: no other span sequence satisfies it. */
  lemma {:induction false} ScanUnique(s: string, from: nat, sp: seq<Span>)
    requires IsLeftmostScan(s, from, sp)
    ensures sp == ScanFrom(s, from)
    decreases |s| - from
  {
    if sp == [] {
      ScanEmpty(s, from);
    } else if sp[0].start == from {
      ScanTail(s, from, sp);
      ScanUnique(s, sp[0].end, sp[1..]);
      ScanHead(s, from, sp);
    } else {
      ScanAdvance(s, from, sp);
      ScanUnique(s, from + 1, sp);
    }
  }

  /** Where the pattern matches, the scan reports that match and resumes after it. */
  lemma {:induction false} ScanHead(s: string, from: nat, sp: seq<Span>)
    requires sp != [] && sp[0].start == from && MatchAt(s, from) == Some(sp[0].end)
    requires sp[1..] == ScanFrom(s, sp[0].end)
    ensures sp == ScanFrom(s, from)
  {
    assert sp == [Span(from, sp[0].end)] + sp[1..];
  }

  /** A leftmost scan whose first span starts later passes over `from` without a match. */
  lemma {:induction false} ScanAdvance(s: string, from: nat, sp: seq<Span>)
    requires IsLeftmostScan(s, from, sp) && sp != [] && sp[0].start != from
    ensures from < |s| && ScanFrom(s, from) == ScanFrom(s, from + 1)
    ensures IsLeftmostScan(s, from + 1, sp)
  {
    assert MatchAt(s, from).None?;
    assert from < |s| by { assert MatchAt(s, sp[0].start).Some?; }
  }

  /** Where no match begins from `from` on, the scan finds nothing. */
  lemma {:induction false} ScanEmpty(s: string, from: nat)
    requires NoMatchIn(s, from, |s|)
    ensures ScanFrom(s, from) == []
    decreases |s| - from
  {
    if from < |s| {
      assert MatchAt(s, from).None?;
      ScanEmpty(s, from + 1);
    }
  }

  /** The spans after the first form a leftmost scan from the first span's end. */
  lemma {:induction false} ScanTail(s: string, from: nat, sp: seq<Span>)
    requires IsLeftmostScan(s, from, sp) && sp != []
    ensures IsLeftmostScan(s, sp[0].end, sp[1..])
  {
    var rest := sp[1..];
    TailAfterHead(s, from, sp);
    TailGaps(s, from, sp);
    assert rest != [] ==> NoMatchIn(s, sp[0].end, rest[0].start);
    assert rest != [] ==> rest[|rest| - 1] == sp[|sp| - 1];
  }

  /** Every later span of a leftmost scan is a match that starts after the first one ends. */
  lemma {:induction false} TailAfterHead(s: string, from: nat, sp: seq<Span>)
    requires IsLeftmostScan(s, from, sp) && sp != []
    ensures forall k :: 0 <= k < |sp[1..]| ==>
      sp[0].end <= sp[1..][k].start && MatchAt(s, sp[1..][k].start) == Some(sp[1..][k].end)
  {
    var rest := sp[1..];
    forall k | 0 <= k < |rest| ensures sp[0].end <= rest[k].start && MatchAt(s, rest[k].start) == Some(rest[k].end) {
      OrderedSpans(s, from, sp, 0, k + 1);
      assert rest[k] == sp[k + 1];
    }
  }

  /** Consecutive later spans of a leftmost scan are ordered, with no match between them. */
  lemma {:induction false} TailGaps(s: string, from: nat, sp: seq<Span>)
    requires IsLeftmostScan(s, from, sp) && sp != []
    ensures forall k :: 0 <= k < |sp[1..]| - 1 ==>
      sp[1..][k].end <= sp[1..][k + 1].start && NoMatchIn(s, sp[1..][k].end, sp[1..][k + 1].start)
  {
    var rest := sp[1..];
    forall k | 0 <= k < |rest| - 1 ensures rest[k].end <= rest[k + 1].start && NoMatchIn(s, rest[k].end, rest[k + 1].start) {
      assert rest[k] == sp[k + 1] && rest[k + 1] == sp[k + 2];
    }
  }

  /** Spans of a leftmost scan lie strictly after one another. */
  lemma {:induction false} OrderedSpans(s: string, from: nat, sp: seq<Span>, i: nat, j: nat)
    requires IsLeftmostScan(s, from, sp)
    requires i < j < |sp|
    ensures sp[i].end <= sp[j].start
    decreases j - i
  {
    if j > i + 1 {
      OrderedSpans(s, from, sp, i, j - 1);
      assert MatchAt(s, sp[j - 1].start).Some?;
    }
  }

  /** Text without an opener contains no tag. */
  lemma {:induction false} NoOpenerNoTags(s: string)
    requires !Contains(s, "{{") && !Contains(s, "{%")
    ensures ExtractJinja2Tags(s) == []
  {
    forall i: nat | i < |s| ensures !OpenerAt(s, i) {
      assert !OccursAt(s, "{{", i) && !OccursAt(s, "{%", i);
      if i + 1 < |s| {
        assert s[i..i + 2] == [s[i], s[i + 1]];
      }
    }
    assert NoMatchIn(s, 0, |s|);
    ScanEmpty(s, 0);
  }

  /** An opener without a later closer yields no tag; the scan resumes at the next character. */
  lemma {:induction false} UnclosedOpenerSkipped(s: string, i: nat, c: char)
    requires OpenerAt(s, i) && c == CloserOf(s[i + 1])
    requires forall k: nat :: i + 2 <= k ==> !CloserAt(s, c, k)
    ensures ScanFrom(s, i) == ScanFrom(s, i + 1)
    ensures forall k :: 0 <= k < |ScanFrom(s, i)| ==> ScanFrom(s, i)[k].start != i
  {
    ScanIsLeftmost(s, i + 1);
  }

  /** A piece of template text: a tag, or literal text between tags. */
  datatype Piece = TagPiece(tag: string) | TextPiece(text: string)

  /** Tags are whole matches; literal text holds no `{`, so it cannot open or extend a tag. */
  predicate WellFormedPiece(p: Piece) {
    match p
    case TagPiece(t) => IsTag(t)
    case TextPiece(x) => '{' !in x
  }

  function PieceText(p: Piece): string {
    match p
    case TagPiece(t) => t
    case TextPiece(x) => x
  }

  /** The text of a document made of pieces. */
  function Render(doc: seq<Piece>): string {
    if doc == [] then "" else PieceText(doc[0]) + Render(doc[1..])
  }

  /** The tags of a document, in order. */
  function TagsOf(doc: seq<Piece>): seq<string> {
    if doc == [] then []
    else match doc[0]
      case TagPiece(t) => [t] + TagsOf(doc[1..])
      case TextPiece(_) => TagsOf(doc[1..])
  }

  /** The texts of the spans. */
  function TextsOf(s: string, sp: seq<Span>): seq<string>
    requires forall k :: 0 <= k < |sp| ==> sp[k].start <= sp[k].end <= |s|
  {
    seq(|sp|, k requires 0 <= k < |sp| => s[sp[k].start..sp[k].end])
  }

  /** Lexing a document of well-formed pieces gives back exactly its tags. */
  lemma {:induction false} LexRender(doc: seq<Piece>)
    requires forall k :: 0 <= k < |doc| ==> WellFormedPiece(doc[k])
    ensures ExtractJinja2Tags(Render(doc)) == TagsOf(doc)
  {
    var s := Render(doc);
    assert s[0..|s|] == s;
    ScanPieces(s, 0, doc);
    ScanEmpty(s, |s|);
    var sp := Spans(s);
    assert sp[|TagsOf(doc)|..] == [];
    assert |sp| == |TagsOf(doc)|;
  }

  /**
   * Scanning across the rendering of `doc`, placed at position `i` of `s`, reports one
   * span per tag piece, with that piece's text, and then carries on after the document.
   */
  lemma {:induction false} ScanPieces(s: string, i: nat, doc: seq<Piece>)
    requires forall k :: 0 <= k < |doc| ==> WellFormedPiece(doc[k])
    requires i + |Render(doc)| <= |s| && s[i..i + |Render(doc)|] == Render(doc)
    decreases |doc|
    ensures ScansAs(s, i, |Render(doc)|, TagsOf(doc))
  {
    if doc == [] {
      assert ScanFrom(s, i)[0..] == ScanFrom(s, i);
    } else {
      var x := PieceText(doc[0]);
      var rest := doc[1..];
      RenderCons(s, i, doc);
      ScanPieces(s, i + |x|, rest);
      if doc[0].TagPiece? {
        TagStep(s, i, x, |Render(rest)|, TagsOf(rest));
        assert TagsOf(doc) == [x] + TagsOf(rest);
      } else {
        TextStep(s, i, x, |Render(rest)|, TagsOf(rest));
        assert TagsOf(doc) == TagsOf(rest);
      }
    }
  }

  /** A whole tag at position `i` is reported, then the scan goes on after it. */
  lemma {:induction false} TagStep(s: string, i: nat, t: string, len: nat, tags: seq<string>)
    requires IsTag(t) && i + |t| <= |s| && s[i..i + |t|] == t
    requires ScansAs(s, i + |t|, len, tags)
    ensures ScansAs(s, i, |t| + len, [t] + tags)
  {
    ScanTag(s, i, t);
    ScansAsCons(s, i, t, len, tags);
  }

  /** Literal text at position `i` is passed over. */
  lemma {:induction false} TextStep(s: string, i: nat, x: string, len: nat, tags: seq<string>)
    requires '{' !in x && i + |x| <= |s| && s[i..i + |x|] == x
    requires ScansAs(s, i + |x|, len, tags)
    ensures ScansAs(s, i, |x| + len, tags)
  {
    ScanText(s, i, x);
    assert i + |x| + len == i + (|x| + len);
  }

  /** The first piece of a document placed in `s`, and the rest placed right after it. */
  lemma {:induction false} RenderCons(s: string, i: nat, doc: seq<Piece>)
    requires doc != []
    requires forall k :: 0 <= k < |doc| ==> WellFormedPiece(doc[k])
    requires i + |Render(doc)| <= |s| && s[i..i + |Render(doc)|] == Render(doc)
    ensures var x := PieceText(doc[0]); var rest := doc[1..];
      && WellFormedPiece(doc[0])
      && (forall k :: 0 <= k < |rest| ==> WellFormedPiece(rest[k]))
      && |Render(doc)| == |x| + |Render(rest)|
      && s[i..i + |x|] == x
      && s[i + |x|..i + |x| + |Render(rest)|] == Render(rest)
  {
    var x := PieceText(doc[0]);
    var rest := doc[1..];
    assert Render(doc) == x + Render(rest);
    assert s[i..i + |x|] == x by {
      assert s[i..i + |x|] == s[i..i + |Render(doc)|][..|x|];
    }
    assert s[i + |x|..i + |x| + |Render(rest)|] == Render(rest) by {
      assert s[i + |x|..i + |x| + |Render(rest)|] == s[i..i + |Render(doc)|][|x|..];
    }
    TailWellFormed(doc);
  }

  /** The pieces after the first are well formed when all are. */
  lemma {:induction false} TailWellFormed(doc: seq<Piece>)
    requires doc != [] && forall k :: 0 <= k < |doc| ==> WellFormedPiece(doc[k])
    ensures forall k :: 0 <= k < |doc[1..]| ==> WellFormedPiece(doc[1..][k])
  {
    var rest := doc[1..];
    forall k | 0 <= k < |rest| ensures WellFormedPiece(rest[k]) {
      assert rest[k] == doc[k + 1];
    }
  }

  /**
   * From position `i`, the scan first reports spans with the texts `tags` and then
   * continues exactly as it would from position `i + len`.
   */
  predicate ScansAs(s: string, i: nat, len: nat, tags: seq<string>) {
    LeadsWith(s, ScanFrom(s, i), tags, ScanFrom(s, i + len))
  }

  /** The spans `sp` are first spans with the texts `tags`, then exactly `after`. */
  predicate LeadsWith(s: string, sp: seq<Span>, tags: seq<string>, after: seq<Span>) {
    && |tags| <= |sp|
    && sp[|tags|..] == after
    && forall k :: 0 <= k < |tags| ==> sp[k].start <= sp[k].end <= |s| && s[sp[k].start..sp[k].end] == tags[k]
  }

  lemma {:induction false} ScansAsCons(s: string, i: nat, t: string, len: nat, tags: seq<string>)
    requires ScanFrom(s, i) == [Span(i, i + |t|)] + ScanFrom(s, i + |t|)
    requires i + |t| <= |s| && s[i..i + |t|] == t
    requires ScansAs(s, i + |t|, len, tags)
    ensures ScansAs(s, i, |t| + len, [t] + tags)
  {
    var sp := ScanFrom(s, i);
    var sp' := ScanFrom(s, i + |t|);
    assert sp[|tags| + 1..] == sp'[|tags|..];
    forall k | 0 <= k < |tags| + 1 ensures s[sp[k].start..sp[k].end] == ([t] + tags)[k] {
      if k > 0 {
        assert sp[k] == sp'[k - 1];
      }
    }
  }

  /** A whole tag at position `i` is the next match, whatever follows it. */
  lemma {:induction false} ScanTag(s: string, i: nat, t: string)
    requires IsTag(t) && i + |t| <= |s| && s[i..i + |t|] == t
    ensures ScanFrom(s, i) == [Span(i, i + |t|)] + ScanFrom(s, i + |t|)
  {
    TagMatches(s, i, t);
  }

  /** A whole tag at position `i` is what the pattern matches there. */
  lemma {:induction false} TagMatches(s: string, i: nat, t: string)
    requires IsTag(t) && i + |t| <= |s| && s[i..i + |t|] == t
    ensures MatchAt(s, i) == Some(i + |t|)
  {
    var c := CloserOf(t[1]);
    assert t[0] == s[i] && t[1] == s[i + 1];
    assert CloserAt(s, c, i + |t| - 2) by {
      assert s[i + |t| - 2] == t[|t| - 2] && s[i + |t| - 1] == t[|t| - 1];
    }
    forall q: nat | i + 2 <= q < i + |t| - 2 ensures !CloserAt(s, c, q) {
      assert s[q] == t[q - i] && s[q + 1] == t[q - i + 1];
      assert !CloserAt(t, c, q - i);
    }
    FirstCloser(s, c, i + 2, i + |t| - 2);
  }

  /** The search for a closer stops at the first one. */
  lemma {:induction false} FirstCloser(s: string, c: char, j: nat, k: nat)
    requires j <= k && CloserAt(s, c, k)
    requires forall q: nat :: j <= q < k ==> !CloserAt(s, c, q)
    ensures FindCloser(s, c, j) == Some(k)
  {
    var r := FindCloser(s, c, j);
    assert r.Some?;
    assert r.value >= k;
  }

  /** Literal text without `{` is passed over without a match. */
  lemma {:induction false} ScanText(s: string, i: nat, x: string)
    requires '{' !in x && i + |x| <= |s| && s[i..i + |x|] == x
    ensures ScanFrom(s, i) == ScanFrom(s, i + |x|)
    decreases |x|
  {
    if x != [] {
      assert s[i] == x[0];
      assert MatchAt(s, i).None?;
      assert s[i + 1..i + 1 + |x[1..]|] == x[1..];
      ScanText(s, i + 1, x[1..]);
    }
  }
}
