/** The edge cases of the annotator (app.py:159-197), each stated for a whole
    family of responses: plain text, an unterminated opening tag, one span,
    an empty span, a padded span followed by an answer, and two spans. */
module AnnotatorExamples {
  import opened Annotator

  /** A tag cannot occur where its first character does not. */
  lemma NoTagWithoutHead(s: string, pat: string, a: nat, b: nat)
    requires |pat| > 0 && a <= b <= |s| && pat[0] !in s[a..b]
    ensures forall k :: a <= k < b ==> !At(s, pat, k)
  {
  }

  /** Find stops at the tag at k when the text from `from` up to k holds no
      first character of the tag. */
  lemma FindAfterGap(s: string, pat: string, from: nat, k: nat)
    requires |pat| > 0 && from <= k && At(s, pat, k) && pat[0] !in s[from..k]
    ensures Find(s, pat, from) == Some(k)
  {
    NoTagWithoutHead(s, pat, from, k);
    FindIsFirst(s, pat, from);
  }

  /** No tag is found in a tail of s that holds no '<'. */
  lemma NoTagInTail(s: string, pat: string, k: nat)
    requires |pat| > 0 && pat[0] == '<' && k <= |s| && '<' !in s[k..]
    ensures Find(s, pat, k) == None
  {
    NoTagWithoutHead(s, pat, k, |s|);
    FindIsFirst(s, pat, k);
  }

  /** Without any closing tag nothing matches, so the response comes back
      unchanged: an opening tag that is never closed is left as it is. */
  lemma UnterminatedUnchanged(s: string)
    requires forall k :: !At(s, Close, k)
    ensures LiteralReplacement(s) && Annotate(s) == s
  {
    SearchFromIsLeftmostShortest(s, 0);
    assert SearchFrom(s, 0) == None;
    UnchangedIffNoSpan(s);
  }

  /** Text without a '<' holds no tag and is returned unchanged. */
  lemma PlainTextUnchanged(s: string)
    requires '<' !in s
    ensures LiteralReplacement(s) && Annotate(s) == s
  {
    NoTagWithoutHead(s, Close, 0, |s|);
    UnterminatedUnchanged(s);
  }

  /** The span found from p when the opening tag at i is the first one after
      p and the closing tag at j the first one after it. */
  lemma SpanAt(s: string, p: nat, i: nat, j: nat)
    requires p <= i && i + |Open| <= j && At(s, Open, i) && At(s, Close, j)
    requires '<' !in s[p..i] && '<' !in s[i + |Open|..j]
    ensures SearchFrom(s, p) == Some(Span(i, j + |Close|))
  {
    FindAfterGap(s, Open, p, i);
    FindAfterGap(s, Close, i + |Open|, j);
  }

  /** A response whose only '<' are those of one span, opening at i and
      closing at j: the span is replaced by the block of its trimmed text. */
  lemma OneSpanAt(s: string, i: nat, j: nat)
    requires i + |Open| <= j && j + |Close| <= |s| && At(s, Open, i) && At(s, Close, j)
    requires '<' !in s[..i] && '<' !in s[i + |Open|..j] && '<' !in s[j + |Close|..]
    requires '\\' !in Strip(s[i + |Open|..j])
    ensures LiteralReplacement(s)
    ensures Annotate(s) == s[..i] + Block(Strip(s[i + |Open|..j])) + s[j + |Close|..]
  {
    var m := Span(i, j + |Close|);
    SpanAt(s, 0, i, j);
    assert SearchFrom(s, m.stop) == None by {
      NoTagInTail(s, Open, m.stop);
    }
    assert Inner(s, m) == s[i + |Open|..j];
    OnlySpanAnnotated(s, m);
  }

  /** When the scan finds no second span, the first one is replaced and the
      text on both sides of it is kept. */
  lemma OnlySpanAnnotated(s: string, m: Span)
    requires SearchFrom(s, 0) == Some(m) && SearchFrom(s, m.stop) == None
    requires '\\' !in Strip(Inner(s, m))
    ensures LiteralReplacement(s)
    ensures Annotate(s) == s[..m.start] + Block(Strip(Inner(s, m))) + s[m.stop..]
  {
    assert ReplaceFrom(s, m.stop, Block(Strip(Inner(s, m)))) == s[m.stop..];
    SliceFromZero(s, m.start);
    AnnotateAtFirstSpan(s, m);
  }

  /** The pieces of pre + Open + inner + Close + post. */
  lemma OnePieces(s: string, pre: string, inner: string, post: string, i: nat, j: nat)
    requires s == pre + Open + inner + Close + post
    requires i == |pre| && j == |pre| + |Open| + |inner|
    ensures j + |Close| <= |s|
    ensures s[..i] == pre && At(s, Open, i) && s[i + |Open|..j] == inner
    ensures At(s, Close, j) && s[j + |Close|..] == post
  {
    assert s[i..i + |Open|] == Open;
    assert s[i + |Open|..j] == inner;
    assert s[j..j + |Close|] == Close;
  }

  /** A response with one span and no other '<': the block, built from the
      trimmed inner text, replaces the span; the text on both sides stays. */
  lemma OneSpanAnnotated(pre: string, inner: string, post: string)
    requires '<' !in pre && '<' !in inner && '<' !in post
    requires '\\' !in Strip(inner)
    ensures LiteralReplacement(pre + Open + inner + Close + post)
    ensures Annotate(pre + Open + inner + Close + post) == pre + Block(Strip(inner)) + post
  {
    var s := pre + Open + inner + Close + post;
    var i, j := |pre|, |pre| + |Open| + |inner|;
    OnePieces(s, pre, inner, post, i, j);
    OneSpanAt(s, i, j);
  }

  /** An empty span still matches; its block embeds the empty text. */
  lemma EmptySpanMatches(pre: string, post: string)
    requires '<' !in pre && '<' !in post
    ensures LiteralReplacement(pre + Open + Close + post)
    ensures Annotate(pre + Open + Close + post) == pre + Block([]) + post
  {
    assert pre + Open + Close + post == pre + Open + [] + Close + post by {
      assert pre + Open + [] == pre + Open;
    }
    OneSpanAnnotated(pre, [], post);
  }

  /** The block embeds the span's text with the surrounding whitespace
      trimmed; the answer after the span follows unchanged. */
  lemma TrimmedSpanThenAnswer(lead: string, t: string, trail: string, answer: string)
    requires forall k :: 0 <= k < |lead| ==> IsSpace(lead[k])
    requires forall k :: 0 <= k < |trail| ==> IsSpace(trail[k])
    requires t != [] && !IsSpace(t[0]) && !IsSpace(t[|t| - 1])
    requires '<' !in t && '\\' !in t && '<' !in answer
    ensures LiteralReplacement(Open + (lead + t + trail) + Close + answer)
    ensures Annotate(Open + (lead + t + trail) + Close + answer) == Block(t) + answer
  {
    var inner := lead + t + trail;
    StripRemovesPadding(lead, t, trail);
    assert '<' !in inner by {
      assert forall k :: 0 <= k < |lead| ==> lead[k] != '<';
      assert forall k :: 0 <= k < |trail| ==> trail[k] != '<';
    }
    assert [] + Open == Open;
    assert [] + Block(t) == Block(t);
    OneSpanAnnotated([], inner, answer);
  }

  /** The scan resumed at p replaces the one span left, which closes at the
      end of the response, and keeps the text before it. */
  lemma LastSpanReplaced(s: string, p: nat, i: nat, j: nat, b: string)
    requires p <= i && i + |Open| <= j && j + |Close| == |s| && At(s, Open, i) && At(s, Close, j)
    requires '<' !in s[p..i] && '<' !in s[i + |Open|..j]
    ensures ReplaceFrom(s, p, b) == s[p..i] + b
  {
    SpanAt(s, p, i, j);
    assert ReplaceFrom(s, |s|, b) == [];
    assert s[p..i] + b + [] == s[p..i] + b;
  }

  /** A response that opens with a span: its block, then what the resumed
      scan makes of the rest. */
  lemma LeadingSpanReplaced(s: string, m: Span, rest: string)
    requires SearchFrom(s, 0) == Some(m) && m.start == 0 && '\\' !in Strip(Inner(s, m))
    requires ReplaceFrom(s, m.stop, Block(Strip(Inner(s, m)))) == rest
    ensures LiteralReplacement(s)
    ensures Annotate(s) == Block(Strip(Inner(s, m))) + rest
  {
    AnnotateAtFirstSpan(s, m);
    EmptyFront(s[0..m.start], Block(Strip(Inner(s, m))), rest);
  }

  /** Nothing in front of b + r. */
  lemma EmptyFront(x: string, b: string, r: string)
    requires x == []
    ensures x + b + r == b + r
  {
  }

  /** A response whose only '<' are those of two spans, the first at its
      very start and the second at its very end: both are replaced by the
      block of the FIRST span's trimmed text; the text between them stays. */
  lemma TwoSpansAt(s: string, j1: nat, i2: nat, j2: nat)
    requires |Open| <= j1 && j1 + |Close| <= i2 && i2 + |Open| <= j2 && j2 + |Close| == |s|
    requires At(s, Open, 0) && At(s, Close, j1) && At(s, Open, i2) && At(s, Close, j2)
    requires '<' !in s[|Open|..j1] && '<' !in s[j1 + |Close|..i2] && '<' !in s[i2 + |Open|..j2]
    requires '\\' !in Strip(s[|Open|..j1])
    ensures LiteralReplacement(s)
    ensures Annotate(s) == Block(Strip(s[|Open|..j1])) + s[j1 + |Close|..i2] + Block(Strip(s[|Open|..j1]))
  {
    var m1 := Span(0, j1 + |Close|);
    var b := Block(Strip(s[|Open|..j1]));
    SpanAt(s, 0, 0, j1);
    assert Inner(s, m1) == s[|Open|..j1];
    var x := s[m1.stop..i2];
    LastSpanReplaced(s, m1.stop, i2, j2, b);
    LeadingSpanReplaced(s, m1, x + b);
    Assoc(b, x, b);
  }

  /** Concatenation is associative. */
  lemma Assoc(a: string, b: string, c: string)
    ensures a + (b + c) == a + b + c
  {
  }

  /** The pieces of Open + a + Close + x + Open + b + Close. */
  lemma TwoPieces(s: string, a: string, x: string, b: string, j1: nat, i2: nat, j2: nat)
    requires s == Open + a + Close + x + Open + b + Close
    requires j1 == |Open| + |a| && i2 == j1 + |Close| + |x| && j2 == i2 + |Open| + |b|
    ensures j2 + |Close| == |s|
    ensures At(s, Open, 0) && s[|Open|..j1] == a && At(s, Close, j1)
    ensures s[j1 + |Close|..i2] == x && At(s, Open, i2)
    ensures s[i2 + |Open|..j2] == b && At(s, Close, j2)
  {
    assert s[0..|Open|] == Open;
    assert s[|Open|..j1] == a;
    assert s[j1..j1 + |Close|] == Close;
    assert s[j1 + |Close|..i2] == x;
    assert s[i2..i2 + |Open|] == Open;
    assert s[i2 + |Open|..j2] == b;
    assert s[j2..j2 + |Close|] == Close;
  }

  /** Two spans: both are replaced, and both by the block built from the
      FIRST span's text; the text between them stays. */
  lemma SecondSpanGetsFirstContent(a: string, x: string, b: string)
    requires '<' !in a && '<' !in x && '<' !in b && '\\' !in Strip(a)
    ensures LiteralReplacement(Open + a + Close + x + Open + b + Close)
    ensures Annotate(Open + a + Close + x + Open + b + Close) == Block(Strip(a)) + x + Block(Strip(a))
  {
    var s := Open + a + Close + x + Open + b + Close;
    var j1 := |Open| + |a|;
    var i2 := j1 + |Close| + |x|;
    var j2 := i2 + |Open| + |b|;
    TwoPieces(s, a, x, b, j1, i2, j2);
    TwoSpansAt(s, j1, i2, j2);
  }

  /** A tag does not start at k when one of its characters differs from
      the text there. */
  lemma NotAtWhereCharDiffers(s: string, pat: string, k: nat, d: nat)
    requires d < |pat| && k + d < |s| && s[k + d] != pat[d]
    ensures !At(s, pat, k)
  {
    if k + |pat| <= |s| {
      assert s[k..k + |pat|][d] == s[k + d];
    }
  }

  /** The pieces of Open + Open + Close + Close. */
  lemma NestedPieces(s: string)
    requires s == Open + Open + Close + Close
    ensures |s| == 30 && At(s, Open, 0) && s[7..14] == Open
    ensures At(s, Close, 14) && s[22..] == Close
  {
    assert s[0..7] == Open;
    assert s[7..14] == Open;
    assert s[14..22] == Close;
    assert s[22..] == Close;
  }

  /** No closing tag starts inside the inner "<think>" of
      Open + Open + Close + Close: each such start is followed by a
      character of "<think>" or by '<', where the tag has its '/'. */
  lemma NestedInnerHasNoClose(s: string)
    requires |s| == 30 && s[7..14] == Open && At(s, Close, 14)
    ensures forall k :: 7 <= k < 14 ==> !At(s, Close, k)
  {
    assert '/' !in Open;
    assert Close[1] == '/';
    forall k | 7 <= k < 14
      ensures !At(s, Close, k)
    {
      if k + 1 < 14 {
        assert s[k + 1] == s[7..14][k + 1 - 7];
      } else {
        assert s[k + 1] == s[14..22][0];
      }
      NotAtWhereCharDiffers(s, Close, k, 1);
    }
  }

  /** In Open + Open + Close + Close the first span runs from the outer
      opening tag to the FIRST closing tag, so its inner text is the inner
      opening tag. */
  lemma NestedFirstSpan(s: string)
    requires s == Open + Open + Close + Close
    ensures SearchFrom(s, 0) == Some(Span(0, 22)) && Inner(s, Span(0, 22)) == Open
  {
    NestedPieces(s);
    FindIsFirst(s, Open, 0);
    NestedInnerHasNoClose(s);
    FindIsFirst(s, Close, 7);
  }

  /** Nothing matches in the tail "</think>" of Open + Open + Close + Close. */
  lemma NestedRestUnmatched(s: string)
    requires s == Open + Open + Close + Close
    ensures SearchFrom(s, 22) == None
  {
    NestedPieces(s);
    assert s[23] == s[22..][1];
    NotAtWhereCharDiffers(s, Open, 22, 1);
    NotAtWhereCharDiffers(s, Open, 23, 0);
    FindIsFirst(s, Open, 22);
  }

  /** The inner opening tag trims to itself and holds no backslash. */
  lemma OpenTagStrips()
    ensures Strip(Open) == Open && '\\' !in Open
  {
    StripKeepsUnpadded(Open);
  }

  /** Open + Open + Close + Close becomes the block of "<think>" followed by
      the outer "</think>". */
  lemma NestedAnnotated(s: string)
    requires s == Open + Open + Close + Close
    ensures LiteralReplacement(s) && Annotate(s) == Block(Open) + Close
  {
    var m := Span(0, 22);
    NestedFirstSpan(s);
    OpenTagStrips();
    assert Block(Strip(Inner(s, m))) == Block(Open);
    assert ReplaceFrom(s, 22, Block(Open)) == Close by {
      NestedRestUnmatched(s);
      NestedPieces(s);
    }
    LeadingSpanReplaced(s, m, Close);
  }

  /** The block of "<think>" followed by "</think>" holds a span from the
      embedded opening tag to the end. */
  lemma BlockOfOpenIsSpan(t: string)
    requires t == Block(Open) + Close
    ensures IsMatch(t, |Prefix|, |t|)
  {
    assert t == Prefix + Open + (Suffix + Close);
    assert t[|Prefix|..|Prefix| + |Open|] == Open;
    assert t[|t| - |Close|..] == Close;
  }

  /** Annotating can leave a raw span in its output, so a second pass is
      not the identity: on Open + Open + Close + Close the block embeds the
      inner "<think>", and the outer "</think>" is kept after the block. */
  lemma AnnotatedOutputKeepsRawSpan(s: string)
    requires s == Open + Open + Close + Close
    ensures LiteralReplacement(s)
    ensures IsMatch(Annotate(s), |Prefix|, |Annotate(s)|)
    ensures LiteralReplacement(Annotate(s)) && Annotate(Annotate(s)) != Annotate(s)
  {
    NestedAnnotated(s);
    var t := Block(Open) + Close;
    BlockOfOpenIsSpan(t);
    assert '\\' !in t by {
      OpenTagStrips();
      BlockHasNoBackslash(Open);
    }
    LiteralWhenNoBackslash(t);
    UnchangedIffNoSpan(t);
  }
}
