/**
 * The pieces of Rust's `str` API that the template parser relies on, stated over
 * `string` (a sequence of Unicode scalar values, as a Rust `&str` is).
 */
module Text {

  /** `char::is_whitespace`: the Unicode White_Space property. */
  predicate IsWhitespace(c: char) {
    var n := c as int;
    (0x09 <= n <= 0x0D) || n == 0x20 || n == 0x85 || n == 0xA0 || n == 0x1680
    || (0x2000 <= n <= 0x200A) || n == 0x2028 || n == 0x2029 || n == 0x202F
    || n == 0x205F || n == 0x3000
  }

  predicate AllWhitespace(s: string) {
    forall i :: 0 <= i < |s| ==> IsWhitespace(s[i])
  }

  predicate NoWhitespace(s: string) {
    forall i :: 0 <= i < |s| ==> !IsWhitespace(s[i])
  }

  /** `str::trim_start`. */
  function TrimStart(s: string): (r: string)
    ensures |r| <= |s| && r == s[|s| - |r|..]
    ensures forall i :: 0 <= i < |s| - |r| ==> IsWhitespace(s[i])
    ensures r == [] || !IsWhitespace(r[0])
  {
    if |s| > 0 && IsWhitespace(s[0]) then TrimStart(s[1..]) else s
  }

  /** `str::trim_end`. */
  function TrimEnd(s: string): (r: string)
    ensures |r| <= |s| && r == s[..|r|]
    ensures forall i :: |r| <= i < |s| ==> IsWhitespace(s[i])
    ensures r == [] || !IsWhitespace(r[|r| - 1])
  {
    if |s| > 0 && IsWhitespace(s[|s| - 1]) then TrimEnd(s[..|s| - 1]) else s
  }

  /** How much leading whitespace `str::trim` removes from `s`. */
  function LeadingWhitespace(s: string): nat {
    |s| - |TrimStart(s)|
  }

  /** `str::trim`: `s` is the result padded on both sides by whitespace only. */
  function Trim(s: string): (r: string)
    ensures r == [] || (!IsWhitespace(r[0]) && !IsWhitespace(r[|r| - 1]))
    ensures LeadingWhitespace(s) + |r| <= |s|
    ensures r == s[LeadingWhitespace(s)..LeadingWhitespace(s) + |r|]
    ensures forall i :: 0 <= i < LeadingWhitespace(s) ==> IsWhitespace(s[i])
    ensures forall i :: LeadingWhitespace(s) + |r| <= i < |s| ==> IsWhitespace(s[i])
  {
    var t := TrimStart(s);
    var r := TrimEnd(t);
    MiddleSlice(s, t, r);
    r
  }

  /** A prefix `r` of a suffix `t` of `s` is a middle slice of `s`, followed by the rest of `t`. */
  lemma {:induction false} MiddleSlice(s: string, t: string, r: string)
    requires |t| <= |s| && t == s[|s| - |t|..]
    requires |r| <= |t| && r == t[..|r|]
    requires forall j :: |r| <= j < |t| ==> IsWhitespace(t[j])
    ensures var a := |s| - |t|;
      r == s[a..a + |r|] && forall i :: a + |r| <= i < |s| ==> IsWhitespace(s[i])
  {
    var a := |s| - |t|;
    forall i | a + |r| <= i < |s| ensures IsWhitespace(s[i]) {
      assert s[i] == t[i - a];
    }
  }

  /** Trimming only removes characters. */
  lemma {:induction false} TrimChars(s: string)
    ensures forall c :: c in Trim(s) ==> c in s
  {
    var r := Trim(s);
    var a := LeadingWhitespace(s);
    forall c | c in r ensures c in s {
      var i :| 0 <= i < |r| && r[i] == c;
      assert s[a + i] == c;
    }
  }

  lemma {:induction false} TrimStartPadded(w: string, x: string)
    requires AllWhitespace(w)
    requires x == [] || !IsWhitespace(x[0])
    ensures TrimStart(w + x) == x
  {
    if w != [] {
      assert (w + x)[1..] == w[1..] + x;
      TrimStartPadded(w[1..], x);
    } else {
      assert w + x == x;
    }
  }

  lemma {:induction false} TrimEndPadded(x: string, w: string)
    requires AllWhitespace(w)
    requires x == [] || !IsWhitespace(x[|x| - 1])
    ensures TrimEnd(x + w) == x
  {
    if w != [] {
      assert (x + w)[..|x + w| - 1] == x + w[..|w| - 1];
      TrimEndPadded(x, w[..|w| - 1]);
    } else {
      assert x + w == x;
    }
  }

  /** Trimming removes exactly the whitespace padding around a text with non-blank ends. */
  lemma {:induction false} TrimPadded(w1: string, x: string, w2: string)
    requires AllWhitespace(w1) && AllWhitespace(w2)
    requires x == [] || (!IsWhitespace(x[0]) && !IsWhitespace(x[|x| - 1]))
    ensures Trim(w1 + x + w2) == x
  {
    if x == [] {
      assert w1 + x + w2 == w1 + w2;
      assert AllWhitespace(w1 + w2);
      TrimStartPadded(w1 + w2, []);
      assert w1 + w2 + [] == w1 + w2;
      assert TrimStart(w1 + w2) == [];
    } else {
      assert w1 + x + w2 == w1 + (x + w2);
      TrimStartPadded(w1, x + w2);
      TrimEndPadded(x, w2);
    }
  }

  predicate StartsWith(s: string, p: string) {
    |p| <= |s| && s[..|p|] == p
  }

  predicate EndsWith(s: string, p: string) {
    |p| <= |s| && s[|s| - |p|..] == p
  }

  /** `p` occurs in `s` beginning at position `i`. */
  predicate OccursAt(s: string, p: string, i: nat) {
    i + |p| <= |s| && s[i..i + |p|] == p
  }

  /** `str::contains` with a string pattern. */
  predicate Contains(s: string, p: string) {
    exists i: nat | i <= |s| :: OccursAt(s, p, i)
  }

  /** A non-empty pattern can only occur where its first character does. */
  lemma {:induction false} FirstCharNeeded(s: string, p: string)
    requires |p| > 0 && p[0] !in s
    ensures !Contains(s, p)
  {
    forall i: nat | i <= |s| ensures !OccursAt(s, p, i) {
      if i + |p| <= |s| {
        assert s[i..i + |p|][0] == s[i];
      }
    }
  }

  /** `str::trim_start_matches` with a string pattern: strips repeated leading copies of `p`. */
  function TrimStartMatches(s: string, p: string): (r: string)
    decreases |s|
    ensures |r| <= |s| && r == s[|s| - |r|..]
    ensures |p| > 0 ==> !StartsWith(r, p)
    ensures !StartsWith(s, p) ==> r == s
  {
    if |p| > 0 && StartsWith(s, p) then TrimStartMatches(s[|p|..], p) else s
  }

  /** `str::trim_end_matches` with a string pattern: strips repeated trailing copies of `p`. */
  function TrimEndMatches(s: string, p: string): (r: string)
    decreases |s|
    ensures |r| <= |s| && r == s[..|r|]
    ensures |p| > 0 ==> !EndsWith(r, p)
    ensures !EndsWith(s, p) ==> r == s
  {
    if |p| > 0 && EndsWith(s, p) then TrimEndMatches(s[..|s| - |p|], p) else s
  }

  /** The pieces joined back together with the separator between them. */
  function JoinWith(parts: seq<string>, c: char): string {
    if |parts| == 0 then ""
    else if |parts| == 1 then parts[0]
    else parts[0] + [c] + JoinWith(parts[1..], c)
  }

  /** `str::split` on one character: the pieces glue back to `s` and none holds the separator. */
  function Split(s: string, c: char): (r: seq<string>)
    ensures |r| >= 1
    ensures JoinWith(r, c) == s
    ensures forall k :: 0 <= k < |r| ==> c !in r[k]
  {
    if s == [] then [""]
    else
      var rest := Split(s[1..], c);
      if s[0] == c then
        assert [s[0]] + s[1..] == s;
        [""] + rest
      else
        JoinConsChar(s[0], rest, c);
        assert [s[0]] + s[1..] == s;
        [[s[0]] + rest[0]] + rest[1..]
  }

  lemma {:induction false} JoinConsChar(x: char, parts: seq<string>, c: char)
    requires |parts| >= 1
    ensures JoinWith([[x] + parts[0]] + parts[1..], c) == [x] + JoinWith(parts, c)
  {
    var q := [[x] + parts[0]] + parts[1..];
    assert q[1..] == parts[1..];
  }

  /** Splitting undoes joining when no piece holds the separator. */
  lemma {:induction false} SplitJoin(parts: seq<string>, c: char)
    requires |parts| >= 1
    requires forall k :: 0 <= k < |parts| ==> c !in parts[k]
    ensures Split(JoinWith(parts, c), c) == parts
  {
    if |parts| == 1 {
      SplitNoSep(parts[0], c);
    } else {
      SplitJoin(parts[1..], c);
      SplitAfter(parts[0], JoinWith(parts[1..], c), c);
      assert [parts[0]] + parts[1..] == parts;
    }
  }

  lemma {:induction false} SplitNoSep(x: string, c: char)
    requires c !in x
    ensures Split(x, c) == [x]
  {
    if x != [] {
      SplitNoSep(x[1..], c);
      assert [x[0]] + x[1..] == x;
    }
  }

  lemma {:induction false} SplitAfter(x: string, y: string, c: char)
    requires c !in x
    ensures Split(x + [c] + y, c) == [x] + Split(y, c)
  {
    if x == [] {
      assert x + [c] + y == [c] + y;
      assert ([c] + y)[1..] == y;
    } else {
      assert (x + [c] + y)[1..] == x[1..] + [c] + y;
      SplitAfter(x[1..], y, c);
      assert [x[0]] + x[1..] == x;
    }
  }

  /** The end of the whitespace-free run of `t` that begins at `i`. */
  function RunEnd(t: string, i: nat): (k: nat)
    requires i <= |t|
    decreases |t| - i
    ensures i <= k <= |t|
    ensures NoWhitespace(t[i..k])
    ensures k == |t| || IsWhitespace(t[k])
  {
    if i == |t| || IsWhitespace(t[i]) then i else RunEnd(t, i + 1)
  }

  /** `str::split_whitespace`: the maximal whitespace-free runs of `s`, in order. */
  function SplitWhitespace(s: string): seq<string>
    decreases |s|
  {
    var t := TrimStart(s);
    if t == [] then []
    else
      var k := RunEnd(t, 0);
      assert k > 0;
      [t[..k]] + SplitWhitespace(t[k..])
  }

  /** Each token is non-empty and holds no whitespace. */
  predicate Tokens(r: seq<string>) {
    forall k :: 0 <= k < |r| ==> r[k] != [] && NoWhitespace(r[k])
  }

  lemma {:induction false} TokensCons(token: string, rest: seq<string>)
    requires token != [] && NoWhitespace(token) && Tokens(rest)
    ensures Tokens([token] + rest)
  {
    var r := [token] + rest;
    forall k | 0 < k < |r| ensures r[k] == rest[k - 1] {}
  }

  /** Every token of `split_whitespace` is non-empty and holds no whitespace. */
  lemma {:induction false} SplitWhitespaceTokens(s: string)
    ensures Tokens(SplitWhitespace(s))
    decreases |s|
  {
    var t := TrimStart(s);
    if t != [] {
      var k := RunEnd(t, 0);
      SplitWhitespaceTokens(t[k..]);
      assert t[..k] == t[0..k];
      TokensCons(t[..k], SplitWhitespace(t[k..]));
    }
  }

  /** The tokens joined by single spaces. */
  function JoinSpaces(tokens: seq<string>): string {
    if |tokens| == 0 then ""
    else if |tokens| == 1 then tokens[0]
    else tokens[0] + " " + JoinSpaces(tokens[1..])
  }

  /** A space-joined list is its first token, a space and the rest joined. */
  lemma {:induction false} JoinSpacesCons(x: string, rest: seq<string>)
    requires rest != []
    ensures JoinSpaces([x] + rest) == x + " " + JoinSpaces(rest)
  {
    assert ([x] + rest)[1..] == rest;
  }

  lemma {:induction false} SplitWhitespaceToken(x: string, rest: string)
    requires x != [] && NoWhitespace(x)
    requires rest == [] || IsWhitespace(rest[0])
    ensures SplitWhitespace(x + rest) == [x] + SplitWhitespace(rest)
  {
    var s := x + rest;
    assert TrimStart(s) == s;
    RunEndAt(s, |x|);
    assert s[..|x|] == x;
    assert s[|x|..] == rest;
    if rest != [] {
      assert TrimStart(rest) == TrimStart(rest[1..]);
    }
    assert SplitWhitespace(rest) == SplitWhitespace(rest[..]);
  }

  lemma {:induction false} RunEndAt(t: string, k: nat)
    requires k <= |t| && NoWhitespace(t[..k])
    requires k == |t| || IsWhitespace(t[k])
    ensures RunEnd(t, 0) == k
  {
    var i := 0;
    while i < k
      invariant 0 <= i <= k
      invariant RunEnd(t, 0) == RunEnd(t, i)
    {
      assert t[i] == t[..k][i];
      i := i + 1;
    }
  }

  /** Splitting on whitespace undoes joining with single spaces. */
  lemma {:induction false} SplitJoinSpaces(tokens: seq<string>)
    requires Tokens(tokens)
    ensures SplitWhitespace(JoinSpaces(tokens)) == tokens
  {
    if |tokens| == 0 {
    } else if |tokens| == 1 {
      SplitWhitespaceSingle(tokens[0]);
    } else {
      var tail := JoinSpaces(tokens[1..]);
      assert JoinSpaces(tokens) == tokens[0] + " " + tail;
      SplitJoinSpaces(tokens[1..]);
      SplitWhitespaceCons(tokens[0], tail);
      assert [tokens[0]] + tokens[1..] == tokens;
    }
  }

  lemma {:induction false} SplitWhitespaceSingle(x: string)
    requires x != [] && NoWhitespace(x)
    ensures SplitWhitespace(x) == [x]
  {
    assert TrimStart(x) == x;
    RunEndAt(x, |x|);
    assert x[..|x|] == x;
    assert x[|x|..] == [];
  }

  lemma {:induction false} SplitWhitespaceCons(x: string, tail: string)
    requires x != [] && NoWhitespace(x)
    ensures SplitWhitespace(x + " " + tail) == [x] + SplitWhitespace(tail)
  {
    var rest := " " + tail;
    assert x + " " + tail == x + rest;
    assert rest[0] == ' ';
    SplitWhitespaceToken(x, rest);
    SplitLeadingSpace(tail);
  }

  lemma {:induction false} SplitLeadingSpace(x: string)
    ensures SplitWhitespace(" " + x) == SplitWhitespace(x)
  {
    var s := " " + x;
    assert s[1..] == x;
    assert TrimStart(s) == TrimStart(x);
  }
}
