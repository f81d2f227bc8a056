# DeepSeek code companion: chat log, prompt chain and reasoning annotator

The application is a single-page chat front end for a locally served coding
model. It keeps a message log in the session state, turns that log into a
prompt chain (one system instruction, then one human or AI turn per logged
message) and, when the model answers, rewrites every `<think>…</think>`
reasoning span of the answer into a styled HTML block before the answer is
logged. This project models those three pieces in Dafny and proves what
they promise:

- `annotator.dfy` (module `Annotator`) models `process_think_section`
  (app.py:159-197). It covers `re.search(r'<think>(.*?)</think>', …,
  re.DOTALL)` as a leftmost, shortest match, and `str.strip()` over Python's
  whitespace set. It also covers `re.sub` as a scan that replaces each
  non-overlapping span and resumes after it.
- `annotator_examples.dfy` (module `AnnotatorExamples`) states the edge cases
  of the annotator as lemmas. These lemmas cover whole families of
  responses:
  - no span;
  - unterminated span;
  - empty span;
  - padded span;
  - one span;
  - two spans.

  The nested case is stated for the single response
  `<think><think></think></think>`.
- `prompt.dfy` (module `Prompt`) models `build_prompt_chain`
  (app.py:149-156). It has a recursive specification, `Chain`, and a method
  with the source's loop, `BuildPromptChain`, proved equal to it.
- `conversation.dfy` (module `Conversation`) models the message log. It has
  the greeting at app.py:87-88 and the submission block at app.py:200-219. It
  is written both as functions on values (`Submitted`, `Replay`) and as a
  class, `ChatSession`, whose `messageLog` field its `Submit` method updates
  in place.

The model call (`generate_ai_response`) is outside the model. Its answer is
a parameter: `Some(text)` is a reply, and `None` is a call that raised.

Three behaviours of the annotator are worth knowing:

- Every span is replaced, each by the block built from the first span's
  content (`SecondSpanGetsFirstContent`, `AnnotateReplacesEverySpan`). The
  code computes that block once and hands it to `re.sub` over the same pattern.
- Annotating the output again does not always return it unchanged. It is
  unchanged exactly when it holds no complete span (`UnchangedIffNoSpan`). The
  output for nested tags still holds one, so a second pass changes it
  (`AnnotatedOutputKeepsRawSpan`).
- `strip()` removes every character Python counts as whitespace, not only
  ASCII blanks (`IsSpace`).

## Model

| member | source | states |
|---|---|---|
| Annotator.Find | app.py:170 | a found position is at or after the start and the tag occurs there |
| Annotator.FindIsFirst | app.py:170 | the found position is the first occurrence of the tag from the start; no result means the tag occurs nowhere after the start |
| Annotator.SearchFrom | app.py:170 | a found span starts at or after the scan position and is a `<think>(.*?)</think>` match |
| Annotator.SearchFromIsLeftmostShortest | app.py:170 | the found span has the leftmost start of all matches, and the shortest end among matches at that start; no result holds exactly when no match starts at or after the position |
| Annotator.SkipSpaces | app.py:174 | the scan passes only whitespace and stops at the end or at a non-whitespace character |
| Annotator.SkipSpacesBack | app.py:174 | the backward scan passes only whitespace and stops at the lower bound or after a non-whitespace character |
| Annotator.Strip | app.py:174 | the result is a slice of the input with only whitespace cut before and after it, and it neither begins nor ends with whitespace |
| Annotator.StripRemovesPadding | app.py:174 | stripping whitespace padding around an unpadded text gives back exactly that text |
| Annotator.StripKeepsUnpadded | app.py:174 | a text that neither begins nor ends with whitespace is its own strip |
| Annotator.Matches | app.py:192 | the spans `re.sub` replaces are ordered, non-overlapping, after the scan start, and each is a match |
| Annotator.CoveringSpan | app.py:192 | every match that starts at or after the scan start begins inside one of the replaced spans |
| Annotator.MatchesCoverEveryMatch | app.py:192 | no match is skipped by the scan: each one overlaps a replaced span |
| Annotator.MatchIsShortest | app.py:192 | each replaced span is the shortest match at its start |
| Annotator.Gaps | app.py:192 | there is one more text between spans than there are spans |
| Annotator.Texts | app.py:192 | there is one span text per span |
| Annotator.Repeat | app.py:192 | n copies of the replacement block |
| Annotator.WeaveRebuilds | app.py:192 | putting each span's original text back between the gaps rebuilds the scanned text exactly |
| Annotator.ReplaceWeavesGaps | app.py:192 | the result of `re.sub` is the gaps between the spans with the replacement block in place of each span |
| Annotator.BlockHasNoBackslash | app.py:177-189 | the styled block holds no backslash beyond those of its content |
| Annotator.LiteralWhenNoBackslash | app.py:174-192 | a response with no backslash always meets the condition under which `re.sub` takes the block literally |
| Annotator.FirstSpanIsFirstTags | app.py:170 | the first span opens at the first `<think>` and closes at the first `</think>` after it |
| Annotator.UnchangedIffNoSpan | app.py:170-197 | the response comes back unchanged if and only if it holds no span |
| Annotator.AnnotateChangesFirstSpan | app.py:172-194 | a response that holds a span is changed |
| Annotator.BlockDiffersFromTag | app.py:177-189 | a block put where an opening tag stood changes the text, because the block starts with a newline |
| Annotator.AnnotateReplacesEverySpan | app.py:170-194 | the output is the text between spans, kept in order, with the block built from the first span's stripped content in place of every span |
| Annotator.AnnotateKeepsLeadingText | app.py:192 | the text before the first span is kept as it was and is followed by the start of the styled block |
| Annotator.AnnotateAtFirstSpan | app.py:170-194 | the output is the text before the first span, then the block of the stripped content, then the scan resumed after the span |
| AnnotatorExamples.NoTagWithoutHead | app.py:170 | a tag does not occur where its first character is absent |
| AnnotatorExamples.FindAfterGap | app.py:170 | the search stops at the first tag when nothing before it holds the tag's first character |
| AnnotatorExamples.NoTagInTail | app.py:170 | no tag is found in a tail without '<' |
| AnnotatorExamples.UnterminatedUnchanged | app.py:196-197 | a response with no closing tag comes back unchanged |
| AnnotatorExamples.PlainTextUnchanged | app.py:196-197 | a response with no '<' comes back unchanged |
| AnnotatorExamples.SpanAt | app.py:170 | with no other '<' around it, the span found is the one between the given tags |
| AnnotatorExamples.OneSpanAt | app.py:170-194 | a response with one span gives the text before it, the block of its stripped content, and the text after it |
| AnnotatorExamples.OnlySpanAnnotated | app.py:170-194 | when the scan finds no second span, the output is the text before the span, the block of its stripped content, and the text after it |
| AnnotatorExamples.OneSpanAnnotated | app.py:170-194 | the one-span case, stated on the pieces of the response |
| AnnotatorExamples.EmptySpanMatches | app.py:170-194 | an empty span matches and becomes a block with empty content |
| AnnotatorExamples.TrimmedSpanThenAnswer | app.py:174-194 | a padded span followed by an answer becomes the block of the unpadded content followed by the answer unchanged |
| AnnotatorExamples.LastSpanReplaced | app.py:192 | a scan resumed before the last span replaces it and keeps the text before it |
| AnnotatorExamples.LeadingSpanReplaced | app.py:170-194 | a response that opens with a span begins with its block |
| AnnotatorExamples.TwoSpansAt | app.py:170-194 | both spans are replaced, each by the block of the first span's content, and the text between them is kept |
| AnnotatorExamples.SecondSpanGetsFirstContent | app.py:170-194 | the two-span case, stated on the pieces of the response |
| AnnotatorExamples.NestedFirstSpan | app.py:170 | in `<think><think></think></think>` the first span ends at the first closing tag, and its content is the inner `<think>` |
| AnnotatorExamples.NestedRestUnmatched | app.py:192 | the trailing closing tag of the nested case is left unmatched |
| AnnotatorExamples.NestedAnnotated | app.py:170-194 | the nested case becomes the block of `<think>` followed by a raw `</think>` |
| AnnotatorExamples.AnnotatedOutputKeepsRawSpan | app.py:170-194 | the annotated nested case still holds a complete span and needs no backslash condition, and annotating it again changes it |
| Prompt.Entry | app.py:152-155 | a "user" message becomes a human turn and an "ai" message an AI turn, with the content kept |
| Prompt.Turns | app.py:151-155 | there are at most as many turns as messages, and none is a system turn |
| Prompt.TurnsAppend | app.py:151-155 | the turns of a log with messages appended are the old turns followed by the turns of the new messages |
| Prompt.ChainLength | app.py:149-156 | the chain has one entry more than the log has "user" or "ai" messages |
| Prompt.ChainStartsWithSystem | app.py:150 | the chain starts with the system instruction, and no later entry is a system turn |
| Prompt.EntryAtRank | app.py:151-155 | each kept message appears in the turns at the position given by the kept messages before it |
| Prompt.RankMonotone | app.py:151-155 | kept messages keep their order in the chain |
| Prompt.OtherRoleDropped | app.py:152-155 | a message with any other role adds nothing to the chain |
| Prompt.AllRetainedMapsEach | app.py:149-156 | when every role is "user" or "ai", entry k+1 of the chain is message k |
| Prompt.BuildPromptChain | app.py:149-156 | the loop builds exactly the specified chain |
| Conversation.Initial | app.py:87-88 | the log starts as the greeting alone, which is a well-formed log |
| Conversation.Submitted | app.py:200-219 | a submission only appends. An empty query appends nothing. Otherwise the user message comes next, then the annotated reply when there is one. A failed call adds no AI message |
| Conversation.SubmittedWellFormed | app.py:200-219 | after a submission the log still starts with the greeting and holds only "user" and "ai" messages |
| Conversation.PromptOfSubmission | app.py:202-206 | the prompt sent for a query is the chain of the earlier log followed by the query as a human turn |
| Conversation.Replay | app.py:87-88 | any sequence of submissions from the greeting gives a well-formed log of at most two messages per submission |
| Conversation.ReplayAppendOnly | app.py:200-219 | the log of earlier submissions is a prefix of the log of later ones, and the greeting stays first |
| Conversation.ChatSession.constructor | app.py:87-88 | the session starts with the greeting log |
| Conversation.ChatSession.Submit | app.py:200-219 | the log field is updated to the submitted log. An empty query sends nothing. Otherwise the chain of the log with the query appended is sent |

## Left out

- The Streamlit page is not modelled: its CSS, header, sidebar, container, chat rendering, spinner and `st.rerun()` are presentation only.
- Model selection in the sidebar is not modelled. It only picks which model answers, and the answer is a parameter.
- `generate_ai_response` and the ChatOllama/LangChain pipeline are not modelled; they call code outside the application. The reply is a parameter, and an exception from the call is the reply `None`.
- `print(parsed_ai_response)` is console output only.
- The commented-out `parse_ai_response` and `display_ai_response` code is not modelled. It is dead code.
- Prompt.Entry: `from_template` reads `{…}` placeholders in a message's content. The model takes the content as literal text, so contents with braces are not covered.
- Annotator.Annotate: `re.sub` reads backslash escapes in its replacement string. The model requires that the stripped span content holds no backslash (`LiteralReplacement`), so replies whose reasoning holds a backslash are not covered.
- Strings are sequences of code points. The emoji in the styled block is kept as the four characters the source file holds, and no encoding is modelled.
- Concurrency between browser sessions is not modelled. Each session is one `ChatSession` object.
