/** The prompt assembler, build_prompt_chain (app.py:149-156): the system
    prompt, then one entry per logged message whose role is "user" or "ai",
    in log order; messages with any other role are dropped. */
module Prompt {

  /** One entry of the message log: {"role": ..., "content": ...}. */
  datatype Message = Message(role: string, content: string)

  /** One entry of the prompt sequence handed to the chat model. */
  datatype PromptEntry = System(text: string) | Human(text: string) | Ai(text: string)

  /** The system instruction of app.py:81-84, the two literal pieces joined
      as Python joins adjacent string literals (with no separator). */
  const SystemPrompt: string :=
    "You are an expert AI coding assistant. Provide concise, correct solutions "
    + "Your strategic print statements for debugging. Always respond in English."

  /** The roles the assembler turns into prompt entries. */
  predicate Retained(role: string)
  {
    role == "user" || role == "ai"
  }

  /** The prompt entry of a retained message: a human entry for "user", an
      AI entry for "ai", carrying the content unchanged. */
  function Entry(m: Message): (e: PromptEntry)
    requires Retained(m.role)
    ensures e.text == m.content && !e.System?
    ensures e.Human? <==> m.role == "user"
    ensures e.Ai? <==> m.role == "ai"
  {
    if m.role == "user" then Human(m.content) else Ai(m.content)
  }

  /** What one loop iteration appends for message m: its entry, or nothing. */
  function Turn(m: Message): seq<PromptEntry>
  {
    if Retained(m.role) then [Entry(m)] else []
  }

  /** The entries the loop has appended after visiting all of log. */
  function Turns(log: seq<Message>): (ts: seq<PromptEntry>)
    ensures |ts| <= |log|
    ensures forall k :: 0 <= k < |ts| ==> !ts[k].System?
  {
    if log == [] then [] else Turns(log[..|log| - 1]) + Turn(log[|log| - 1])
  }

  /** The whole prompt sequence: the system prompt, then the turns. */
  function Chain(log: seq<Message>): seq<PromptEntry>
  {
    [System(SystemPrompt)] + Turns(log)
  }

  /** The number of retained messages in log. */
  function RetainedCount(log: seq<Message>): nat
  {
    |set k | 0 <= k < |log| && Retained(log[k].role)|
  }

  /** Assembling a concatenated log assembles each part in turn. */
  lemma {:induction false} TurnsAppend(a: seq<Message>, b: seq<Message>)
    ensures Turns(a + b) == Turns(a) + Turns(b)
    decreases |b|
  {
    if b == [] {
      assert a + b == a;
    } else {
      var b' := b[..|b| - 1];
      assert (a + b)[..|a + b| - 1] == a + b';
      TurnsAppend(a, b');
    }
  }

  /** The retained positions of log + [m]: those of log, plus |log| when m is retained. */
  lemma RetainedPositionsExtend(log: seq<Message>, m: Message)
    ensures var l := log + [m];
            (set k | 0 <= k < |l| && Retained(l[k].role))
            == (set k | 0 <= k < |log| && Retained(log[k].role))
               + (if Retained(m.role) then {|log|} else {})
  {
    var l := log + [m];
    var left := set k | 0 <= k < |l| && Retained(l[k].role);
    var right := (set k | 0 <= k < |log| && Retained(log[k].role))
                 + (if Retained(m.role) then {|log|} else {});
    forall k | k in left ensures k in right {
      if k < |log| {
        assert l[k] == log[k];
      }
    }
    forall k | k in right ensures k in left {
      if k < |log| {
        assert l[k] == log[k];
      }
    }
  }

  /** One prompt entry per retained message: the prompt sequence has length
      one (the system prompt) plus the number of "user" and "ai" messages. */
  lemma {:induction false} ChainLength(log: seq<Message>)
    ensures |Chain(log)| == 1 + RetainedCount(log)
    decreases |log|
  {
    if log != [] {
      var init := log[..|log| - 1];
      var m := log[|log| - 1];
      ChainLength(init);
      assert log == init + [m];
      RetainedPositionsExtend(init, m);
      var old_set := set k | 0 <= k < |init| && Retained(init[k].role);
      assert |init| !in old_set;
    }
  }

  /** The system prompt comes first and nowhere else. */
  lemma ChainStartsWithSystem(log: seq<Message>)
    ensures Chain(log)[0] == System(SystemPrompt)
    ensures forall k :: 1 <= k < |Chain(log)| ==> !Chain(log)[k].System?
  {
    var c := Chain(log);
    forall k | 1 <= k < |c| ensures !c[k].System? {
      assert c[k] == Turns(log)[k - 1];
    }
  }

  /** The retained message at position i of the log gives the prompt entry
      just after those of the retained messages before it: nothing is lost,
      content and role are carried over, and the log order is kept. */
  lemma EntryAtRank(log: seq<Message>, i: nat)
    requires i < |log| && Retained(log[i].role)
    ensures var r := |Turns(log[..i])|;
            r < |Turns(log)| && Turns(log)[r] == Entry(log[i])
  {
    var front := log[..i];
    var back := log[i + 1..];
    assert log == front + [log[i]] + back;
    TurnsAppend(front + [log[i]], back);
    TurnsAppend(front, [log[i]]);
    assert Turns([log[i]]) == [Entry(log[i])] by {
      assert [log[i]][..0] == [];
    }
  }

  /** Each retained message before position i has its entry before the
      entry of log[i]: ranks grow with positions. */
  lemma RankMonotone(log: seq<Message>, i: nat, j: nat)
    requires i < j <= |log| && Retained(log[i].role)
    ensures |Turns(log[..i])| < |Turns(log[..j])|
  {
    var front := log[..i];
    assert log[..j] == front + [log[i]] + log[i + 1..j];
    TurnsAppend(front + [log[i]], log[i + 1..j]);
    TurnsAppend(front, [log[i]]);
    assert Turns([log[i]]) == [Entry(log[i])] by {
      assert [log[i]][..0] == [];
    }
  }

  /** A message with another role adds nothing to the prompt. */
  lemma {:induction false} OtherRoleDropped(log: seq<Message>, m: Message)
    requires !Retained(m.role)
    ensures Chain(log + [m]) == Chain(log)
  {
    assert (log + [m])[..|log|] == log;
  }

  /** When every message is "user" or "ai", the k-th message gives the
      (k+1)-th prompt entry. */
  lemma {:induction false} AllRetainedMapsEach(log: seq<Message>)
    requires forall k :: 0 <= k < |log| ==> Retained(log[k].role)
    ensures |Chain(log)| == |log| + 1
    ensures forall k :: 0 <= k < |log| ==> Chain(log)[k + 1] == Entry(log[k])
    decreases |log|
  {
    if log != [] {
      var init := log[..|log| - 1];
      AllRetainedMapsEach(init);
      forall k | 0 <= k < |log| ensures Chain(log)[k + 1] == Entry(log[k]) {
        if k < |init| {
          assert Chain(log)[k + 1] == Chain(init)[k + 1];
        }
      }
    }
  }

  /** build_prompt_chain: the loop of app.py:150-156 over the log. */
  method BuildPromptChain(log: seq<Message>) returns (chain: seq<PromptEntry>)
    ensures chain == Chain(log)
  {
    chain := [System(SystemPrompt)];
    for i := 0 to |log|
      invariant chain == [System(SystemPrompt)] + Turns(log[..i])
    {
      var msg := log[i];
      assert log[..i + 1][..i] == log[..i];
      if msg.role == "user" {
        chain := chain + [Human(msg.content)];
      } else if msg.role == "ai" {
        chain := chain + [Ai(msg.content)];
      }
    }
    assert log[..|log|] == log;
  }
}
