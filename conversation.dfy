/** The conversation log kept in the session state: created once with the
    assistant's greeting (app.py:87-88) and extended by each submission
    (app.py:200-219). */
module Conversation {
  import opened Annotator
  import opened Prompt

  /** The greeting the log starts with (app.py:88). */
  const Greeting: string := "Hi! I am DeepSeek. How can I help you code today ? "

  /** What every reachable log looks like: the greeting first, and only
      "user" and "ai" messages, so every message reaches the prompt. */
  predicate WellFormed(log: seq<Message>)
  {
    |log| >= 1 && log[0] == Message("ai", Greeting)
    && forall k :: 0 <= k < |log| ==> Retained(log[k].role)
  }

  /** The log as it is first created: the greeting alone. */
  function Initial(): (log: seq<Message>)
    ensures WellFormed(log) && |log| == 1
  {
    [Message("ai", Greeting)]
  }

  /** The log after one submission. An empty query changes nothing
      (`if user_query:`); otherwise the user turn is appended, and then the
      annotated reply when the model answered. A reply of None stands for a
      failed model call: the exception leaves the user turn in place and
      adds no AI turn. */
  function Submitted(log: seq<Message>, query: string, reply: Option<string>): (r: seq<Message>)
    requires reply.Some? ==> LiteralReplacement(reply.value)
    ensures |log| <= |r| <= |log| + 2 && r[..|log|] == log
    ensures query == "" ==> r == log
    ensures query != "" ==> |r| > |log| && r[|log|] == Message("user", query)
    ensures query != "" && reply.Some? ==> |r| == |log| + 2 && r[|log| + 1] == Message("ai", Annotate(reply.value))
    ensures reply.None? ==> |r| <= |log| + 1
  {
    if query == "" then log
    else match reply
      case None => log + [Message("user", query)]
      case Some(text) => log + [Message("user", query), Message("ai", Annotate(text))]
  }

  /** A submission keeps the log well formed. */
  lemma SubmittedWellFormed(log: seq<Message>, query: string, reply: Option<string>)
    requires reply.Some? ==> LiteralReplacement(reply.value)
    requires WellFormed(log)
    ensures WellFormed(Submitted(log, query, reply))
  {
    var r := Submitted(log, query, reply);
    forall k | 0 <= k < |r| ensures Retained(r[k].role) {
      if k < |log| {
        assert r[k] == r[..|log|][k];
      }
    }
  }

  /** The prompt sent for a submission: the system prompt, every earlier
      message in order, then the new user turn. */
  lemma {:induction false} PromptOfSubmission(log: seq<Message>, query: string)
    requires WellFormed(log)
    ensures var c := Chain(log + [Message("user", query)]);
            |c| == |log| + 2
            && c[..|log| + 1] == Chain(log)
            && c[|log| + 1] == Human(query)
  {
    var l := log + [Message("user", query)];
    TurnsAppend(log, [Message("user", query)]);
    assert Turns([Message("user", query)]) == [Human(query)] by {
      assert [Message("user", query)][..0] == [];
    }
    AllRetainedMapsEach(log);
  }

  /** One use of the chat input: the query typed (empty when nothing was
      submitted) and the model's reply (None when the call failed). */
  datatype Submission = Submission(query: string, reply: Option<string>)

  /** Every reply of steps is taken literally by the replacement. */
  predicate LiteralReplies(steps: seq<Submission>)
  {
    forall k :: 0 <= k < |steps| && steps[k].reply.Some? ==> LiteralReplacement(steps[k].reply.value)
  }

  /** The log after the session's first visit and then the given
      submissions, in order. */
  function Replay(steps: seq<Submission>): (log: seq<Message>)
    requires LiteralReplies(steps)
    ensures WellFormed(log) && |log| <= 1 + 2 * |steps|
  {
    if steps == [] then Initial()
    else
      var last := steps[|steps| - 1];
      var before := Replay(steps[..|steps| - 1]);
      SubmittedWellFormed(before, last.query, last.reply);
      Submitted(before, last.query, last.reply)
  }

  /** The log is append-only: the log after some of the submissions is a
      prefix of the log after all of them, and the greeting stays first. */
  lemma {:induction false} ReplayAppendOnly(steps: seq<Submission>, i: nat)
    requires LiteralReplies(steps) && i <= |steps|
    ensures Replay(steps[..i]) <= Replay(steps)
    ensures Replay(steps)[0] == Message("ai", Greeting)
    decreases |steps| - i
  {
    if i < |steps| {
      var n := |steps| - 1;
      var before := Replay(steps[..n]);
      assert steps[..n][..i] == steps[..i];
      ReplayAppendOnly(steps[..n], i);
      assert before <= Replay(steps) by {
        var r := Replay(steps);
        assert r == Submitted(before, steps[n].query, steps[n].reply);
        assert r[..|before|] == before;
      }
      PrefixTransitive(Replay(steps[..i]), before, Replay(steps));
    } else {
      assert steps[..i] == steps;
    }
  }

  lemma PrefixTransitive(a: seq<Message>, b: seq<Message>, c: seq<Message>)
    requires a <= b && b <= c
    ensures a <= c
  {
    assert a == b[..|a|] == c[..|b|][..|a|] == c[..|a|];
  }

  /** The session's message log, with the operations that change it. */
  class ChatSession {
    var messageLog: seq<Message>

    /** The invariant every session keeps. */
    ghost predicate Valid()
      reads this
    {
      WellFormed(messageLog)
    }

    /** The first visit: the log holds the greeting alone. */
    constructor ()
      ensures messageLog == Initial()
      ensures Valid()
    {
      messageLog := [Message("ai", Greeting)];
    }

    /** The submit block: append the user turn, build the prompt from the
        whole log, and append the annotated reply. `sent` is the prompt the
        model is asked with (None when the query is empty and nothing is
        asked); `reply` is what the model returned, or None if the call
        failed. */
    method Submit(query: string, reply: Option<string>) returns (sent: Option<seq<PromptEntry>>)
      requires Valid()
      requires reply.Some? ==> LiteralReplacement(reply.value)
      modifies this
      ensures Valid()
      ensures messageLog == Submitted(old(messageLog), query, reply)
      ensures query == "" ==> sent == None
      ensures query != "" ==> sent == Some(Chain(old(messageLog) + [Message("user", query)]))
    {
      SubmittedWellFormed(messageLog, query, reply);
      if query == "" {
        sent := None;
        return;
      }
      messageLog := messageLog + [Message("user", query)];
      var chain := BuildPromptChain(messageLog);
      sent := Some(chain);
      match reply {
        case None =>
        case Some(response) =>
          var styled := Annotate(response);
          messageLog := messageLog + [Message("ai", styled)];
      }
    }
  }
}
