/** The conversation driver: one run of the three fixed steps (implement,
    document, test) against a completion service, keeping the message
    history append-only and recording a normalised assistant turn after the
    first two replies. */
module QuasiAgent {
  import opened PyStr
  import opened CodeBlock

  datatype Role = System | User | Assistant

  datatype Message = Message(role: Role, content: string)

  /** What the completion service does with one history: returns a reply,
      or raises, which ends the run. */
  datatype Completion = Reply(text: string) | Raised(error: string)

  /** The three code strings of a finished run. */
  datatype Generated = Generated(basic: string, documented: string, finalCode: string)

  datatype Outcome = Done(functions: Generated) | Failed(error: string)

  const SystemPrompt := "You are an expert Python programmer. Write clean, efficient functions based on user descriptions. Always output code in ```python code blocks```."

  function ImplementPrompt(description: string): string {
    "Write a Python function that " + description + ". Output the function in a ```python code block```."
  }

  const DocumentPrompt := "Add comprehensive documentation to this function including: function description, parameter descriptions with types, return value description, example usage, and edge cases. Output the complete documented function in a ```python code block```."

  const TestPrompt := "Add comprehensive unittest test cases to this code. Include tests for: basic functionality, edge cases, error cases, and various input scenarios. Return the complete code with the function, imports, test class, and main block to run tests in a ```python code block```."

  /** The fixed texts of one run: the system message and the three user
      requests. */
  datatype Prompts = Prompts(system: string, implement: string, document: string, test: string)

  function AgentPrompts(description: string): Prompts {
    Prompts(SystemPrompt, ImplementPrompt(description), DocumentPrompt, TestPrompt)
  }

  /** A system message first, then user and assistant turns alternating,
      the user speaking first. */
  predicate Alternates(history: seq<Message>) {
    && |history| >= 1
    && history[0].role == System
    && forall k :: 1 <= k < |history| ==> history[k].role == if k % 2 == 1 then User else Assistant
  }

  /** The messages of a run before the first request. */
  function Opening(prompts: Prompts): seq<Message> {
    [Message(System, prompts.system), Message(User, prompts.implement)]
  }

  /** The history after the first `|codes|` steps succeeded with the
      extracted `codes`: the system message and the first request, then for
      each finished step its formatted code as an assistant turn followed by
      the next step's request. */
  function Conversation(prompts: Prompts, codes: seq<string>): (history: seq<Message>)
    requires |codes| <= 2
    ensures |history| == 2 * |codes| + 2
  {
    if codes == [] then
      Opening(prompts)
    else
      var last := |codes| - 1;
      var earlier := Conversation(prompts, codes[..last]);
      earlier + [ Message(Assistant, CleanAssistantResponse(codes[last])),
                  Message(User, if last == 0 then prompts.document else prompts.test) ]
  }

  /** Every history of a run alternates, ends with a request, and holds
      step `k`'s formatted code at position `2 * k + 2`. */
  lemma {:induction false} ConversationShape(prompts: Prompts, codes: seq<string>)
    requires |codes| <= 2
    ensures var history := Conversation(prompts, codes);
      && Alternates(history) && history[|history| - 1].role == User
      && forall k :: 0 <= k < |codes| ==> history[2 * k + 2] == Message(Assistant, CleanAssistantResponse(codes[k]))
  {
    if codes != [] {
      var last := |codes| - 1;
      ConversationShape(prompts, codes[..last]);
      var earlier := Conversation(prompts, codes[..last]);
      var history := Conversation(prompts, codes);
      var n := |earlier|;
      assert n == 2 * last + 2;
      forall k | 1 <= k < |history| ensures history[k].role == if k % 2 == 1 then User else Assistant {
        if k < n {
          assert history[k] == earlier[k];
        } else if k == n {
          assert k % 2 == 0;
        } else {
          assert k == n + 1 && k % 2 == 1;
        }
      }
      forall k | 0 <= k < last ensures history[2 * k + 2] == Message(Assistant, CleanAssistantResponse(codes[k])) {
        assert history[2 * k + 2] == earlier[2 * k + 2];
        assert codes[..last][k] == codes[k];
      }
    }
  }

  /** Each step appends two messages and leaves the earlier ones alone. */
  lemma ConversationExtends(prompts: Prompts, codes: seq<string>, code: string)
    requires |codes| <= 1
    ensures Conversation(prompts, codes + [code]) == Conversation(prompts, codes) +
      [ Message(Assistant, CleanAssistantResponse(code)),
        Message(User, if |codes| == 0 then prompts.document else prompts.test) ]
  {
    assert (codes + [code])[..|codes|] == codes;
  }

  /** The history after `k` steps is the first `2 * k + 2` messages of any
      later history. */
  lemma {:induction false} ConversationPrefix(prompts: Prompts, codes: seq<string>, k: nat)
    requires k <= |codes| <= 2
    ensures Conversation(prompts, codes)[..2 * k + 2] == Conversation(prompts, codes[..k])
    decreases |codes|
  {
    if k < |codes| {
      var last := |codes| - 1;
      var earlier := Conversation(prompts, codes[..last]);
      assert codes[..last] + [codes[last]] == codes;
      ConversationExtends(prompts, codes[..last], codes[last]);
      assert Conversation(prompts, codes)[..2 * k + 2] == earlier[..2 * k + 2];
      ConversationPrefix(prompts, codes[..last], k);
      assert codes[..last][..k] == codes[..k];
    } else {
      assert codes[..k] == codes;
    }
  }

  /** The extracted code of each reply to `requests`. */
  function ExtractedReplies(complete: seq<Message> -> Completion, requests: seq<seq<Message>>): (codes: seq<string>)
    requires forall k :: 0 <= k < |requests| ==> complete(requests[k]).Reply?
    ensures |codes| == |requests|
    ensures forall k :: 0 <= k < |requests| ==> codes[k] == ExtractCodeBlock(complete(requests[k]).text)
  {
    seq(|requests|, k requires 0 <= k < |requests| => ExtractCodeBlock(complete(requests[k]).text))
  }

  /** What one run with `prompts` did: it asked between one and three
      times, every request but the last got a reply, the history is the
      conversation of the extracted replies, each request was the history so
      far, the run failed exactly when the last request raised (with that
      error), and a finished run returns the three extracted codes. */
  ghost predicate Ran(prompts: Prompts, complete: seq<Message> -> Completion, outcome: Outcome,
                      history: seq<Message>, requests: seq<seq<Message>>)
  {
    && 1 <= |requests| <= 3
    && (forall k :: 0 <= k < |requests| - 1 ==> complete(requests[k]).Reply?)
    && history == Conversation(prompts, ExtractedReplies(complete, requests[..|requests| - 1]))
    && (forall k :: 0 <= k < |requests| ==> requests[k] == history[..2 * k + 2])
    && (outcome.Failed? <==> complete(requests[|requests| - 1]).Raised?)
    && (outcome.Failed? ==> outcome.error == complete(requests[|requests| - 1]).error)
    && (outcome.Done? ==> |requests| == 3 && outcome.functions == Generated(
          ExtractCodeBlock(complete(requests[0]).text),
          ExtractCodeBlock(complete(requests[1]).text),
          ExtractCodeBlock(complete(requests[2]).text)))
  }

  /** How a run ends, from its bookkeeping: request `k` was the history
      after `k` steps, the steps so far recorded the extracted replies, and
      the last request either raised or was the third. */
  lemma RunEnds(prompts: Prompts, complete: seq<Message> -> Completion, outcome: Outcome,
                history: seq<Message>, requests: seq<seq<Message>>, codes: seq<string>)
    requires |codes| <= 2 && |requests| == |codes| + 1
    requires history == Conversation(prompts, codes)
    requires forall k :: 0 <= k < |requests| ==> requests[k] == Conversation(prompts, codes[..k])
    requires forall k :: 0 <= k < |codes| ==> complete(requests[k]).Reply?
    requires forall k :: 0 <= k < |codes| ==> codes[k] == ExtractCodeBlock(complete(requests[k]).text)
    requires complete(requests[|codes|]).Raised? ==> outcome == Failed(complete(requests[|codes|]).error)
    requires complete(requests[|codes|]).Reply? ==>
      |codes| == 2 && outcome == Done(Generated(codes[0], codes[1], ExtractCodeBlock(complete(requests[2]).text)))
    ensures Ran(prompts, complete, outcome, history, requests)
  {
    assert ExtractedReplies(complete, requests[..|codes|]) == codes;
    forall k | 0 <= k < |requests| ensures requests[k] == history[..2 * k + 2] {
      ConversationPrefix(prompts, codes, k);
    }
  }

  /** The messages in the order the run appends them: the opening, */
  lemma FirstRequest(prompts: Prompts)
    ensures [Message(System, prompts.system)] + [Message(User, prompts.implement)] == Conversation(prompts, [])
  {
  }

  /** then the first code and the request for documentation, */
  lemma SecondRequest(prompts: Prompts, basic: string)
    ensures Conversation(prompts, []) + [Message(Assistant, CleanAssistantResponse(basic))]
      + [Message(User, prompts.document)] == Conversation(prompts, [basic])
  {
    ConversationExtends(prompts, [], basic);
    assert [] + [basic] == [basic];
  }

  /** then the documented code and the request for tests. */
  lemma ThirdRequest(prompts: Prompts, basic: string, documented: string)
    ensures Conversation(prompts, [basic]) + [Message(Assistant, CleanAssistantResponse(documented))]
      + [Message(User, prompts.test)] == Conversation(prompts, [basic, documented])
  {
    ConversationExtends(prompts, [basic], documented);
    assert [basic] + [documented] == [basic, documented];
  }

  /** A run whose first request raised. */
  lemma FirstStepRaised(prompts: Prompts, complete: seq<Message> -> Completion,
                        history: seq<Message>, requests: seq<seq<Message>>)
    requires history == Conversation(prompts, []) && requests == [history]
    requires complete(history).Raised?
    ensures Ran(prompts, complete, Failed(complete(history).error), history, requests)
  {
    RunEnds(prompts, complete, Failed(complete(history).error), history, requests, []);
  }

  /** A run whose second request raised. */
  lemma SecondStepRaised(prompts: Prompts, complete: seq<Message> -> Completion, basic: string,
                         history: seq<Message>, requests: seq<seq<Message>>)
    requires history == Conversation(prompts, [basic])
    requires requests == [Conversation(prompts, [])] + [history]
    requires complete(requests[0]).Reply? && basic == ExtractCodeBlock(complete(requests[0]).text)
    requires complete(history).Raised?
    ensures Ran(prompts, complete, Failed(complete(history).error), history, requests)
  {
    var codes := [basic];
    assert codes[..0] == [] && codes[..1] == codes;
    RunEnds(prompts, complete, Failed(complete(history).error), history, requests, codes);
  }

  /** After two steps the requests were the histories after none, one and
      two steps. */
  lemma RequestsAfterTwoSteps(prompts: Prompts, codes: seq<string>, requests: seq<seq<Message>>)
    requires |codes| == 2
    requires requests == [Conversation(prompts, [])] + [Conversation(prompts, [codes[0]])] + [Conversation(prompts, codes)]
    ensures forall k :: 0 <= k < |requests| ==> requests[k] == Conversation(prompts, codes[..k])
  {
    assert codes[..0] == [] && codes[..1] == [codes[0]] && codes[..2] == codes;
  }

  /** A run that reached its third request. */
  lemma ThirdStepAnswered(prompts: Prompts, complete: seq<Message> -> Completion, basic: string,
                          documented: string, outcome: Outcome, history: seq<Message>,
                          requests: seq<seq<Message>>)
    requires history == Conversation(prompts, [basic, documented])
    requires requests == [Conversation(prompts, [])] + [Conversation(prompts, [basic])] + [history]
    requires complete(requests[0]).Reply? && basic == ExtractCodeBlock(complete(requests[0]).text)
    requires complete(requests[1]).Reply? && documented == ExtractCodeBlock(complete(requests[1]).text)
    requires outcome == if complete(history).Raised? then Failed(complete(history).error)
      else Done(Generated(basic, documented, ExtractCodeBlock(complete(history).text)))
    ensures Ran(prompts, complete, outcome, history, requests)
  {
    var codes := [basic, documented];
    RequestsAfterTwoSteps(prompts, codes, requests);
    RunEnds(prompts, complete, outcome, history, requests, codes);
  }

  /** The body of `create_python_function` for given prompt texts. The
      service is asked at most three times; each request is the history so
      far, which grows by a user turn before each request and by the
      formatted extracted code after each of the first two replies. A raise
      ends the run there; otherwise the three extracted codes are returned. */
  method RunSteps(prompts: Prompts, complete: seq<Message> -> Completion)
    returns (outcome: Outcome, ghost history: seq<Message>, ghost requests: seq<seq<Message>>)
    ensures Ran(prompts, complete, outcome, history, requests)
  {
    var messages := [Message(System, prompts.system)];

    // step 1: a working function
    messages := messages + [Message(User, prompts.implement)];
    FirstRequest(prompts);
    requests := [messages];
    var response1 := complete(messages);
    if response1.Raised? {
      outcome, history := Failed(response1.error), messages;
      FirstStepRaised(prompts, complete, history, requests);
      return;
    }
    var basic := ExtractCodeBlock(response1.text);
    messages := messages + [Message(Assistant, CleanAssistantResponse(basic))];

    // step 2: documentation
    messages := messages + [Message(User, prompts.document)];
    SecondRequest(prompts, basic);
    requests := requests + [messages];
    var response2 := complete(messages);
    if response2.Raised? {
      outcome, history := Failed(response2.error), messages;
      SecondStepRaised(prompts, complete, basic, history, requests);
      return;
    }
    var documented := ExtractCodeBlock(response2.text);
    messages := messages + [Message(Assistant, CleanAssistantResponse(documented))];

    // step 3: tests; no assistant turn follows the last reply
    messages := messages + [Message(User, prompts.test)];
    ThirdRequest(prompts, basic, documented);
    requests := requests + [messages];
    var response3 := complete(messages);
    if response3.Raised? {
      outcome := Failed(response3.error);
    } else {
      outcome := Done(Generated(basic, documented, ExtractCodeBlock(response3.text)));
    }
    history := messages;
    ThirdStepAnswered(prompts, complete, basic, documented, outcome, history, requests);
  }

  /** `create_python_function`, with the completion service as `complete`:
      the three steps, asked with this agent's system message and requests.
      `history` and `requests` record what the run sent and are not part of
      its result. */
  method CreatePythonFunction(description: string, complete: seq<Message> -> Completion)
    returns (outcome: Outcome, ghost history: seq<Message>, ghost requests: seq<seq<Message>>)
    ensures Ran(AgentPrompts(description), complete, outcome, history, requests)
    ensures var first := complete(Opening(AgentPrompts(description)));
      && (first.Raised? ==> outcome == Failed(first.error))
      && (outcome.Done? ==> first.Reply? && outcome.functions.basic == ExtractCodeBlock(first.text))
  {
    outcome, history, requests := RunSteps(AgentPrompts(description), complete);
    RunOpening(AgentPrompts(description), complete, outcome, history, requests);
  }

  /** The shape of a history that grew by steps, each request being the
      history so far. */
  lemma StepsShape(prompts: Prompts, codes: seq<string>, history: seq<Message>, requests: seq<seq<Message>>)
    requires |codes| <= 2 && |requests| == |codes| + 1
    requires history == Conversation(prompts, codes)
    requires forall k :: 0 <= k < |requests| ==> requests[k] == history[..2 * k + 2]
    ensures |history| == 2 * |requests|
    ensures Alternates(history) && history[|history| - 1].role == User
    ensures forall k :: 0 <= k < |requests| ==>
      |requests[k]| == 2 * k + 2 && requests[k][2 * k + 1].role == User
    ensures forall k :: 0 <= k < |codes| ==> history[2 * k + 2] == Message(Assistant, CleanAssistantResponse(codes[k]))
  {
    ConversationShape(prompts, codes);
    forall k | 0 <= k < |requests| ensures |requests[k]| == 2 * k + 2 && requests[k][2 * k + 1].role == User {
      assert requests[k][2 * k + 1] == history[2 * k + 1];
      assert (2 * k + 1) % 2 == 1;
    }
  }

  /** What any run's record says about its messages: the history
      alternates and ends with a request, and request `k` holds `2 * k + 2`
      messages and ends with a user turn. */
  lemma RunShape(prompts: Prompts, complete: seq<Message> -> Completion, outcome: Outcome,
                 history: seq<Message>, requests: seq<seq<Message>>)
    requires Ran(prompts, complete, outcome, history, requests)
    ensures |history| == 2 * |requests|
    ensures Alternates(history) && history[|history| - 1].role == User
    ensures forall k :: 0 <= k < |requests| ==>
      |requests[k]| == 2 * k + 2 && requests[k][2 * k + 1].role == User
  {
    StepsShape(prompts, ExtractedReplies(complete, requests[..|requests| - 1]), history, requests);
  }

  /** A finished run asked three times and its history is the six-message
      conversation of its first two codes. */
  lemma RunFinished(prompts: Prompts, complete: seq<Message> -> Completion, outcome: Outcome,
                    history: seq<Message>, requests: seq<seq<Message>>)
    requires Ran(prompts, complete, outcome, history, requests)
    requires outcome.Done?
    ensures |requests| == 3 && |history| == 6
    ensures history == Conversation(prompts, [outcome.functions.basic, outcome.functions.documented])
  {
    var codes := ExtractedReplies(complete, requests[..2]);
    assert requests[..2][0] == requests[0] && requests[..2][1] == requests[1];
    assert codes == [outcome.functions.basic, outcome.functions.documented];
  }

  /** Each finished step of a run left its extracted code, formatted, as
      the assistant turn after its request. */
  lemma RunTurns(prompts: Prompts, complete: seq<Message> -> Completion, outcome: Outcome,
                 history: seq<Message>, requests: seq<seq<Message>>, k: nat)
    requires Ran(prompts, complete, outcome, history, requests)
    requires k < |requests| - 1
    ensures history[2 * k + 2] == Message(Assistant, CleanAssistantResponse(ExtractCodeBlock(complete(requests[k]).text)))
  {
    var codes := ExtractedReplies(complete, requests[..|requests| - 1]);
    ConversationShape(prompts, codes);
    assert requests[..|requests| - 1][k] == requests[k];
  }

  /** A raising request is the run's last: the run fails with its error,
      and the history is exactly that request, holding the assistant turns
      of the steps before it. */
  lemma RaiseEndsRun(prompts: Prompts, complete: seq<Message> -> Completion, outcome: Outcome,
                     history: seq<Message>, requests: seq<seq<Message>>, k: nat)
    requires Ran(prompts, complete, outcome, history, requests)
    requires k < |requests| && complete(requests[k]).Raised?
    ensures k == |requests| - 1 && outcome == Failed(complete(requests[k]).error)
    ensures history == requests[k] && |history| == 2 * k + 2
  {
    assert history[..2 * k + 2] == history;
  }

  /** Every run first asks with the system message and the first request
      alone: if that raises, the run fails with its error, and a finished
      run's first code is extracted from its reply. */
  lemma RunOpening(prompts: Prompts, complete: seq<Message> -> Completion, outcome: Outcome,
                   history: seq<Message>, requests: seq<seq<Message>>)
    requires Ran(prompts, complete, outcome, history, requests)
    ensures requests[0] == Opening(prompts)
    ensures complete(Opening(prompts)).Raised? ==> outcome == Failed(complete(Opening(prompts)).error)
    ensures outcome.Done? ==>
      complete(Opening(prompts)).Reply? && outcome.functions.basic == ExtractCodeBlock(complete(Opening(prompts)).text)
  {
    var codes := ExtractedReplies(complete, requests[..|requests| - 1]);
    ConversationPrefix(prompts, codes, 0);
    assert codes[..0] == [];
    if complete(requests[0]).Raised? {
      RaiseEndsRun(prompts, complete, outcome, history, requests, 0);
    }
  }

  /** The recorded assistant turns give back the recorded code under
      re-extraction exactly when neither reply held a lone fence. */
  lemma RecordedTurnsReextract(prompts: Prompts, reply1: string, reply2: string)
    ensures var h := Conversation(prompts, [ExtractCodeBlock(reply1), ExtractCodeBlock(reply2)]);
      && (ExtractCodeBlock(h[2].content) == ExtractCodeBlock(reply1)
          <==> !(Contains(reply1, Fence) && !TwoOccurrences(reply1, Fence)))
      && (ExtractCodeBlock(h[4].content) == ExtractCodeBlock(reply2)
          <==> !(Contains(reply2, Fence) && !TwoOccurrences(reply2, Fence)))
  {
    RenormalizedTurnRecoversCode(reply1);
    RenormalizedTurnRecoversCode(reply2);
  }
}
