/** The reasoning-tag annotator of app.py (`process_think_section`).

    The source runs `re.search(r'<think>(.*?)</think>', response, re.DOTALL)`,
    trims the first span's inner text, builds one styled block from it and
    hands that block to `re.sub` over the same pattern, which replaces every
    non-overlapping span. This module spells the regular expression out as
    explicit substring search: `.` with DOTALL matches any character, so a
    span is an opening tag, any text, and a closing tag. */
module Annotator {

  datatype Option<T> = None | Some(value: T)

  const Open: string := "<think>"
  const Close: string := "</think>"

  /** The styled block that replaces a span is Prefix + content + Suffix
      (the f-string of app.py:177-189, with its indentation and the
      characters of its title kept as they appear in the file). */
  const Prefix: string :=
    "\n"
    + "        <div style=\"\n"
    + "            background-color: #1a1a1a;\n"
    + "            color: #ffffff;\n"
    + "            border-left: 4px solid #4a90e2; \n"
    + "            padding: 10px; \n"
    + "            margin-bottom: 10px; \n"
    + "            font-style: italic; \n"
    + "        \">\n"
    + "        <b>\U{00F0}\U{0178}\U{00A4}\U{201D}"
    + " AI Reasoning Process:</b><br>\n"
    + "        "
  const Suffix: string := "\n        </div>\n        "

  function Block(content: string): string
  {
    Prefix + content + Suffix
  }

  // ---------------------------------------------------------------------
  // Substring search

  /** `pat` occurs in `s` at index `k`. */
  predicate At(s: string, pat: string, k: nat)
  {
    k + |pat| <= |s| && s[k..k + |pat|] == pat
  }

  /** The first occurrence of `pat` at or after index `from`. */
  function Find(s: string, pat: string, from: nat): (r: Option<nat>)
    decreases |s| - from
    ensures r.Some? ==> from <= r.value && At(s, pat, r.value)
  {
    if from + |pat| > |s| then None
    else if At(s, pat, from) then Some(from)
    else Find(s, pat, from + 1)
  }

  /** Find returns the FIRST occurrence at or after `from`, and None only
      when there is none. */
  lemma {:induction false} FindIsFirst(s: string, pat: string, from: nat)
    decreases |s| - from
    ensures Find(s, pat, from).Some? ==>
              forall k :: from <= k < Find(s, pat, from).value ==> !At(s, pat, k)
    ensures Find(s, pat, from).None? ==> forall k :: from <= k ==> !At(s, pat, k)
  {
    if from + |pat| <= |s| && !At(s, pat, from) {
      FindIsFirst(s, pat, from + 1);
    }
  }

  // ---------------------------------------------------------------------
  // The pattern <think>(.*?)</think> under DOTALL

  /** A span of `s`: the text s[start..stop], tags included. */
  datatype Span = Span(start: nat, stop: nat)

  /** s[i..j] as a whole is matched by <think>.*?</think>: an opening tag at
      i, a closing tag ending at j, and the two tags do not overlap. */
  predicate IsMatch(s: string, i: nat, j: nat)
  {
    At(s, Open, i) && i + |Open| + |Close| <= j && At(s, Close, j - |Close|)
  }

  /** `re.search` started at index p: the first opening tag at or after p,
      closed by the first closing tag after it. */
  function SearchFrom(s: string, p: nat): (r: Option<Span>)
    ensures r.Some? ==> p <= r.value.start && IsMatch(s, r.value.start, r.value.stop)
  {
    match Find(s, Open, p)
    case None => None
    case Some(i) =>
      match Find(s, Close, i + |Open|)
      case None => None
      case Some(j) => Some(Span(i, j + |Close|))
  }

  /** SearchFrom is the regular-expression search: it finds the leftmost
      start at which the pattern matches and, there, the shortest match (the
      `*?` is non-greedy); it finds nothing exactly when nothing matches. */
  lemma SearchFromIsLeftmostShortest(s: string, p: nat)
    ensures SearchFrom(s, p).Some? ==>
              forall i: nat, j: nat :: p <= i && IsMatch(s, i, j) ==>
                SearchFrom(s, p).value.start < i
                || (SearchFrom(s, p).value.start == i && SearchFrom(s, p).value.stop <= j)
    ensures SearchFrom(s, p).None? <==> forall i: nat, j: nat :: p <= i ==> !IsMatch(s, i, j)
  {
    FindIsFirst(s, Open, p);
    match Find(s, Open, p)
    case None =>
    case Some(i0) =>
      FindIsFirst(s, Close, i0 + |Open|);
      match Find(s, Close, i0 + |Open|)
      case None =>
      case Some(j0) =>
        forall i: nat, j: nat | p <= i && IsMatch(s, i, j)
          ensures i0 < i || (i0 == i && j0 + |Close| <= j)
        {
          assert At(s, Open, i);
        }
  }

  /** The text captured by the group (.*?) of a match. */
  function Inner(s: string, m: Span): string
    requires IsMatch(s, m.start, m.stop)
  {
    s[m.start + |Open|..m.stop - |Close|]
  }

  // ---------------------------------------------------------------------
  // str.strip()

  /** Python's str.isspace() for one character: the characters str.strip()
      removes when called without arguments. */
  predicate IsSpace(c: char)
  {
    c == ' ' || '\t' <= c <= '\r' || '\U{1C}' <= c <= '\U{1F}'
    || c == '\U{85}' || c == '\U{A0}' || c == '\U{1680}'
    || '\U{2000}' <= c <= '\U{200A}' || c == '\U{2028}' || c == '\U{2029}'
    || c == '\U{202F}' || c == '\U{205F}' || c == '\U{3000}'
  }

  /** The index of the first non-whitespace character at or after i (|t|
      when there is none): the left scan of str.strip(). */
  function SkipSpaces(t: string, i: nat): (r: nat)
    requires i <= |t|
    ensures i <= r <= |t|
    ensures forall k :: i <= k < r ==> IsSpace(t[k])
    ensures r < |t| ==> !IsSpace(t[r])
    decreases |t| - i
  {
    if i < |t| && IsSpace(t[i]) then SkipSpaces(t, i + 1) else i
  }

  /** The end of t[a..j] once its trailing whitespace is dropped: the right
      scan of str.strip(), which stops at the left scan's position a. */
  function SkipSpacesBack(t: string, a: nat, j: nat): (r: nat)
    requires a <= j <= |t|
    ensures a <= r <= j
    ensures forall k :: r <= k < j ==> IsSpace(t[k])
    ensures r > a ==> !IsSpace(t[r - 1])
    decreases j - a
  {
    if j > a && IsSpace(t[j - 1]) then SkipSpacesBack(t, a, j - 1) else j
  }

  /** r is t[a..a + |r|], and everything cut away on either side is
      whitespace. */
  predicate StrippedAt(t: string, r: string, a: nat)
  {
    a + |r| <= |t| && t[a..a + |r|] == r
    && (forall k :: 0 <= k < a ==> IsSpace(t[k]))
    && (forall k :: a + |r| <= k < |t| ==> IsSpace(t[k]))
  }

  /** str.strip(): a piece of `t` that only whitespace was cut from, and that
      neither starts nor ends with whitespace. */
  function Strip(t: string): (r: string)
    ensures exists a: nat :: StrippedAt(t, r, a)
    ensures r != [] ==> !IsSpace(r[0]) && !IsSpace(r[|r| - 1])
  {
    var a := SkipSpaces(t, 0);
    var b := SkipSpacesBack(t, a, |t|);
    assert StrippedAt(t, t[a..b], a);
    t[a..b]
  }

  /** Strip removes exactly the padding: whitespace around a text that
      neither starts nor ends with whitespace. */
  lemma StripRemovesPadding(lead: string, t: string, trail: string)
    requires forall k :: 0 <= k < |lead| ==> IsSpace(lead[k])
    requires forall k :: 0 <= k < |trail| ==> IsSpace(trail[k])
    requires t != [] && !IsSpace(t[0]) && !IsSpace(t[|t| - 1])
    ensures Strip(lead + t + trail) == t
  {
    var x := lead + t + trail;
    var r := Strip(x);
    var a: nat :| StrippedAt(x, r, a);
    var first, last := |lead|, |lead| + |t| - 1;
    assert x[first] == t[0] && x[last] == t[|t| - 1];
    assert a <= first;
    assert r != [];
    assert x[a] == r[0];
    assert a == first;
    assert x[a + |r| - 1] == r[|r| - 1];
    assert a + |r| - 1 == last;
    assert r == x[first..last + 1] == t;
  }

  /** A text that neither starts nor ends with whitespace is its own strip. */
  lemma StripKeepsUnpadded(t: string)
    requires t != [] && !IsSpace(t[0]) && !IsSpace(t[|t| - 1])
    ensures Strip(t) == t
  {
    StripRemovesPadding([], t, []);
    assert [] + t + [] == t;
  }

  // ---------------------------------------------------------------------
  // re.sub: every non-overlapping match, scanning left to right

  /** `re.sub(pattern, block, s[p..])`: search from p, copy the text before the
      match, emit the block, and resume scanning at the end of the match. */
  function ReplaceFrom(s: string, p: nat, block: string): string
    requires p <= |s|
    decreases |s| - p
  {
    match SearchFrom(s, p)
    case None => s[p..]
    case Some(m) => s[p..m.start] + block + ReplaceFrom(s, m.stop, block)
  }

  /** Spans that follow one another inside s[p..] without overlapping. */
  predicate Ordered(s: string, p: nat, ms: seq<Span>)
    decreases |ms|
  {
    if ms == [] then p <= |s|
    else p <= ms[0].start <= ms[0].stop <= |s| && Ordered(s, ms[0].stop, ms[1..])
  }

  /** The spans `re.sub` replaces in s[p..], in order: each is a match of the
      pattern, and the shortest one at its start. */
  function Matches(s: string, p: nat): (ms: seq<Span>)
    requires p <= |s|
    decreases |s| - p
    ensures Ordered(s, p, ms)
    ensures forall k :: 0 <= k < |ms| ==> IsMatch(s, ms[k].start, ms[k].stop)
  {
    match SearchFrom(s, p)
    case None => []
    case Some(m) =>
      var rest := Matches(s, m.stop);
      assert ([m] + rest)[1..] == rest;
      [m] + rest
  }

  /** No match is skipped: a match of the pattern starting at or after p
      starts inside one of the replaced spans (the index of which is k), so
      the only matches left alone overlap a replaced one. */
  lemma {:induction false} CoveringSpan(s: string, p: nat, i: nat, j: nat) returns (k: nat)
    requires p <= |s| && p <= i && IsMatch(s, i, j)
    decreases |s| - p
    ensures k < |Matches(s, p)|
    ensures Matches(s, p)[k].start <= i < Matches(s, p)[k].stop
  {
    SearchFromIsLeftmostShortest(s, p);
    var m := SearchFrom(s, p).value;
    var rest := Matches(s, m.stop);
    assert Matches(s, p) == [m] + rest;
    if i < m.stop {
      k := 0;
    } else {
      var k' := CoveringSpan(s, m.stop, i, j);
      k := k' + 1;
    }
  }

  lemma MatchesCoverEveryMatch(s: string, p: nat)
    requires p <= |s|
    ensures var ms := Matches(s, p);
            forall i: nat, j: nat :: p <= i && IsMatch(s, i, j) ==>
              exists k :: 0 <= k < |ms| && ms[k].start <= i < ms[k].stop
  {
    var ms := Matches(s, p);
    forall i: nat, j: nat | p <= i && IsMatch(s, i, j)
      ensures exists k :: 0 <= k < |ms| && ms[k].start <= i < ms[k].stop
    {
      var k := CoveringSpan(s, p, i, j);
    }
  }

  /** Each replaced span is the shortest match at its start: it ends at the
      first closing tag after its opening tag. */
  lemma {:induction false} MatchIsShortest(s: string, p: nat, k: nat, j: nat)
    requires p <= |s| && k < |Matches(s, p)| && IsMatch(s, Matches(s, p)[k].start, j)
    decreases k
    ensures Matches(s, p)[k].stop <= j
  {
    var m := SearchFrom(s, p).value;
    var rest := Matches(s, m.stop);
    assert Matches(s, p) == [m] + rest;
    if k == 0 {
      SearchFromIsLeftmostShortest(s, p);
    } else {
      MatchIsShortest(s, m.stop, k - 1, j);
    }
  }

  /** The pieces of s[p..] outside the spans: |ms| + 1 of them, in order. */
  function Gaps(s: string, p: nat, ms: seq<Span>): (gs: seq<string>)
    requires Ordered(s, p, ms)
    decreases |ms|
    ensures |gs| == |ms| + 1
  {
    if ms == [] then [s[p..]]
    else [s[p..ms[0].start]] + Gaps(s, ms[0].stop, ms[1..])
  }

  /** The text of each span, in order. */
  function Texts(s: string, p: nat, ms: seq<Span>): (ts: seq<string>)
    requires Ordered(s, p, ms)
    decreases |ms|
    ensures |ts| == |ms|
  {
    if ms == [] then []
    else [s[ms[0].start..ms[0].stop]] + Texts(s, ms[0].stop, ms[1..])
  }

  /** gs[0] + fills[0] + gs[1] + fills[1] + ... + gs[|fills|]. */
  function Weave(gs: seq<string>, fills: seq<string>): string
    requires |gs| == |fills| + 1
    decreases |fills|
  {
    if fills == [] then gs[0]
    else gs[0] + fills[0] + Weave(gs[1..], fills[1..])
  }

  function Repeat(b: string, n: nat): (r: seq<string>)
    ensures |r| == n && forall k :: 0 <= k < n ==> r[k] == b
  {
    seq(n, _ => b)
  }

  /** Nothing is lost between the spans: putting each span's own text back
      between the gaps gives back s[p..]. */
  lemma {:induction false} WeaveRebuilds(s: string, p: nat, ms: seq<Span>)
    requires Ordered(s, p, ms)
    decreases |ms|
    ensures Weave(Gaps(s, p, ms), Texts(s, p, ms)) == s[p..]
  {
    if ms != [] {
      var m := ms[0];
      var gs, ts := Gaps(s, p, ms), Texts(s, p, ms);
      WeaveRebuilds(s, m.stop, ms[1..]);
      assert gs[0] == s[p..m.start] && gs[1..] == Gaps(s, m.stop, ms[1..]);
      assert ts[0] == s[m.start..m.stop] && ts[1..] == Texts(s, m.stop, ms[1..]);
      calc {
        Weave(gs, ts);
        s[p..m.start] + s[m.start..m.stop] + Weave(gs[1..], ts[1..]);
        s[p..m.start] + s[m.start..m.stop] + s[m.stop..];
        { assert s[p..] == s[p..m.start] + s[m.start..m.stop] + s[m.stop..]; }
        s[p..];
      }
    }
  }

  /** The scan of `re.sub` replaces exactly the spans of Matches: its result is
      the gaps of s[p..], kept in order, with `block` in place of each span. */
  lemma {:induction false} ReplaceWeavesGaps(s: string, p: nat, block: string)
    requires p <= |s|
    decreases |s| - p
    ensures var ms := Matches(s, p);
            ReplaceFrom(s, p, block) == Weave(Gaps(s, p, ms), Repeat(block, |ms|))
  {
    match SearchFrom(s, p)
    case None =>
    case Some(m) =>
      var ms := Matches(s, p);
      var rest := Matches(s, m.stop);
      ReplaceWeavesGaps(s, m.stop, block);
      assert ms[1..] == rest;
      assert Gaps(s, p, ms)[1..] == Gaps(s, m.stop, rest);
      assert Repeat(block, |ms|)[1..] == Repeat(block, |rest|);
  }

  // ---------------------------------------------------------------------
  // process_think_section

  /** `think_match.group(1).strip()`, or None when re.search finds nothing. */
  function ThinkContent(s: string): Option<string>
  {
    match SearchFrom(s, 0)
    case None => None
    case Some(m) => Some(Strip(Inner(s, m)))
  }

  /** The replacement handed to `re.sub` is taken literally only when it holds
      no backslash; the prefix and suffix hold none, so that is a condition on
      the extracted content. */
  predicate LiteralReplacement(s: string)
  {
    ThinkContent(s).Some? ==> '\\' !in ThinkContent(s).value
  }

  /** process_think_section(response). */
  function Annotate(s: string): string
    requires LiteralReplacement(s)
  {
    match ThinkContent(s)
    case None => s
    case Some(c) => ReplaceFrom(s, 0, Block(c))
  }

  // ---------------------------------------------------------------------
  // Properties of the annotator

  /** The lines of Prefix hold no backslash, in three groups so that each
      proof stays small. */
  lemma StyleOpensWithoutBackslash()
    ensures '\\' !in "        <div style=\"\n"
    ensures '\\' !in "            background-color: #1a1a1a;\n"
    ensures '\\' !in "            color: #ffffff;\n"
    ensures '\\' !in "            border-left: 4px solid #4a90e2; \n"
  {
  }

  lemma StyleClosesWithoutBackslash()
    ensures '\\' !in "            padding: 10px; \n"
    ensures '\\' !in "            margin-bottom: 10px; \n"
    ensures '\\' !in "            font-style: italic; \n"
    ensures '\\' !in "        \">\n"
  {
  }

  lemma TitleWithoutBackslash()
    ensures '\\' !in "        <b>\U{00F0}\U{0178}\U{00A4}\U{201D}"
    ensures '\\' !in " AI Reasoning Process:</b><br>\n"
  {
  }

  /** The styled block adds no backslash of its own. */
  lemma BlockHasNoBackslash(c: string)
    requires '\\' !in c
    ensures '\\' !in Block(c)
  {
    StyleOpensWithoutBackslash();
    StyleClosesWithoutBackslash();
    TitleWithoutBackslash();
    assert '\\' !in Prefix;
    assert '\\' !in Suffix;
  }

  /** A response without any backslash is always handled literally: the
      stripped content of its first span is a piece of it. */
  lemma {:induction false} LiteralWhenNoBackslash(s: string)
    requires '\\' !in s
    ensures LiteralReplacement(s)
  {
    match SearchFrom(s, 0)
    case None =>
    case Some(m) =>
      var x := Inner(s, m);
      assert x == s[m.start + |Open|..m.stop - |Close|];
      assert '\\' !in x;
      var r := Strip(x);
      var a: nat :| StrippedAt(x, r, a);
      assert r == x[a..a + |r|];
      assert '\\' !in r;
  }

  /** The first span opens at the first "<think>" of the response and closes
      at the first "</think>" after that opening tag. */
  lemma FirstSpanIsFirstTags(s: string, m: Span)
    requires SearchFrom(s, 0) == Some(m)
    ensures At(s, Open, m.start) && forall k :: 0 <= k < m.start ==> !At(s, Open, k)
    ensures At(s, Close, m.stop - |Close|)
    ensures forall k :: m.start + |Open| <= k < m.stop - |Close| ==> !At(s, Close, k)
  {
    FindIsFirst(s, Open, 0);
    FindIsFirst(s, Close, m.start + |Open|);
  }

  /** The response comes back unchanged exactly when it holds no "<think>"
      followed later by a "</think>" (an unterminated opening tag included). */
  lemma UnchangedIffNoSpan(s: string)
    requires LiteralReplacement(s)
    ensures Annotate(s) == s <==> forall i: nat, j: nat :: !IsMatch(s, i, j)
  {
    match SearchFrom(s, 0)
    case None =>
      SearchFromIsLeftmostShortest(s, 0);
      assert ThinkContent(s) == None;
    case Some(m) =>
      AnnotateChangesFirstSpan(s, m);
      assert IsMatch(s, m.start, m.stop);
  }

  /** Where the first span opened, the result holds the block's first
      character, not the '<' of the tag, so the result differs from s. */
  lemma AnnotateChangesFirstSpan(s: string, m: Span)
    requires LiteralReplacement(s)
    requires SearchFrom(s, 0) == Some(m)
    ensures Annotate(s) != s
  {
    AnnotateAtFirstSpan(s, m);
    BlockDiffersFromTag(Annotate(s), s, m.start, Strip(Inner(s, m)),
                        ReplaceFrom(s, m.stop, Block(Strip(Inner(s, m)))));
  }

  /** A text that has a block where s has an opening tag differs from s. */
  lemma BlockDiffersFromTag(r: string, s: string, k: nat, c: string, t: string)
    requires k <= |s| && At(s, Open, k) && r == s[0..k] + Block(c) + t
    ensures r != s
  {
    assert s[k] == '<' by {
      assert s[k..k + |Open|][0] == s[k];
    }
    assert r[k] == '\n' by {
      assert Prefix[0] == '\n';
      assert Block(c)[0] == Prefix[0];
      assert r[k] == Block(c)[0];
    }
  }

  /** Every replaced span gets the block built from the FIRST span's trimmed
      inner text, and the text around the spans is kept in its order: the
      response is gaps woven with the spans' own text, the result is the same
      gaps woven with copies of that one block. */
  lemma AnnotateReplacesEverySpan(s: string)
    requires LiteralReplacement(s)
    requires exists i: nat, j: nat :: IsMatch(s, i, j)
    ensures var ms := Matches(s, 0);
            && ms != []
            && ThinkContent(s) == Some(Strip(Inner(s, ms[0])))
            && s == Weave(Gaps(s, 0, ms), Texts(s, 0, ms))
            && Annotate(s) == Weave(Gaps(s, 0, ms), Repeat(Block(Strip(Inner(s, ms[0]))), |ms|))
  {
    var ms := Matches(s, 0);
    SearchFromIsLeftmostShortest(s, 0);
    var m :| SearchFrom(s, 0) == Some(m);
    assert ms[0] == m;
    WeaveRebuilds(s, 0, ms);
    assert s[0..] == s;
    ReplaceWeavesGaps(s, 0, Block(Strip(Inner(s, m))));
  }

  /** The text before the first "<think>" is the start of the result, and the
      block follows it. */
  lemma AnnotateKeepsLeadingText(s: string, m: Span)
    requires LiteralReplacement(s)
    requires SearchFrom(s, 0) == Some(m)
    ensures m.start + |Prefix| <= |Annotate(s)|
    ensures Annotate(s)[..m.start + |Prefix|] == s[..m.start] + Prefix
  {
    var c := Strip(Inner(s, m));
    AnnotateAtFirstSpan(s, m);
    SliceFromZero(s, m.start);
    BlockFront(Annotate(s), s[0..m.start], s[..m.start], c, ReplaceFrom(s, m.stop, Block(c)));
  }

  lemma SliceFromZero(s: string, k: nat)
    requires k <= |s|
    ensures s[0..k] == s[..k]
  {
  }

  /** One step of the annotation: the text before the first span, the block,
      then the scan resumed after the span. */
  lemma AnnotateAtFirstSpan(s: string, m: Span)
    requires LiteralReplacement(s)
    requires SearchFrom(s, 0) == Some(m)
    ensures Annotate(s) == s[0..m.start] + Block(Strip(Inner(s, m)))
                           + ReplaceFrom(s, m.stop, Block(Strip(Inner(s, m))))
  {
  }

  lemma BlockFront(r: string, x: string, y: string, c: string, t: string)
    requires r == x + Block(c) + t && x == y
    ensures |x| + |Prefix| <= |r| && r[..|x| + |Prefix|] == y + Prefix
  {
    assert x + Block(c) + t == (x + Prefix) + (c + Suffix + t);
  }
}
