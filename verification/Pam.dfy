/** The account check on Unix (auth_unix.go): PAM asks its questions through a callback, which finds
    the frontend by a handle and fills an array of responses. PAM itself is an oracle. */
module Pam {
  import opened Prelude

  datatype Style = PromptEchoOff | PromptEchoOn | TextInfo | ErrorMsg | Unknown(code: int)
  {
    predicate IsPrompt() {
      PromptEchoOff? || PromptEchoOn?
    }
  }

  datatype Message = Message(style: Style, text: string)

  datatype Code = Success | ConvError | BufferError | OtherError(code: int)

  /** What the frontend was asked or told. */
  datatype Saying =
    | Asked(text: string, echo: bool, answer: Option<string>)
    | Told(text: string)

  class Frontend {
    var sayings: seq<Saying>

    constructor ()
      ensures sayings == []
    {
      sayings := [];
    }

    method Prompt(text: string, echo: bool) returns (answer: Option<string>)
      modifies this
      ensures sayings == old(sayings) + [Asked(text, echo, answer)]
    {
      answer := *;
      sayings := sayings + [Asked(text, echo, answer)];
    }

    method Info(text: string)
      modifies this
      ensures sayings == old(sayings) + [Told(text)]
    {
      sayings := sayings + [Told(text)];
    }
  }

  /** Frontends by handle. Handles are counted up and not used twice. */
  class Registry {
    var entries: map<nat, Frontend>
    var lastId: nat

    ghost predicate Valid()
      reads this
    {
      forall id :: id in entries ==> 0 < id <= lastId
    }

    constructor ()
      ensures Valid() && entries == map[] && lastId == 0
    {
      entries, lastId := map[], 0;
    }

    method Register(frontend: Frontend) returns (id: nat)
      requires Valid()
      modifies this
      ensures Valid() && id !in old(entries) && id > old(lastId) && lastId == id
      ensures entries == old(entries)[id := frontend]
    {
      lastId := lastId + 1;
      id := lastId;
      entries := entries[id := frontend];
    }

    method Unregister(id: nat)
      requires Valid()
      modifies this`entries
      ensures Valid() && entries == old(entries) - {id}
    {
      entries := entries - {id};
    }
  }

  // ----- What one call of the callback comes to -----

  /** The saying that relays the message. */
  predicate Relays(s: Saying, m: Message) {
    && s.text == m.text
    && (if m.style.IsPrompt() then s.Asked? && s.echo == m.style.PromptEchoOn? else s.Told? && !m.style.Unknown?)
  }

  predicate IsAnswered(s: Saying) {
    s.Asked? ==> s.answer.Some?
  }

  /** The frontend saw the first messages, in order, each once; all it was asked before the last
      saying was answered. */
  predicate RelaysInOrder(talk: seq<Saying>, msgs: seq<Message>) {
    && |talk| <= |msgs|
    && (forall i :: 0 <= i < |talk| ==> Relays(talk[i], msgs[i]))
    && (forall i :: 0 <= i < |talk| - 1 ==> IsAnswered(talk[i]))
  }

  predicate AllAnswered(talk: seq<Saying>) {
    forall i :: 0 <= i < |talk| ==> IsAnswered(talk[i])
  }

  predicate IsComplete(talk: seq<Saying>, msgs: seq<Message>) {
    |talk| == |msgs| && AllAnswered(talk)
  }

  /** A talk that is not complete ended at the first question without an answer, or before the first
      message of an unknown style. */
  predicate EndedEarly(talk: seq<Saying>, msgs: seq<Message>) {
    || (talk != [] && !IsAnswered(talk[|talk| - 1]))
    || (|talk| < |msgs| && msgs[|talk|].style.Unknown?)
  }

  function Response(s: Saying): Option<string> {
    if s.Asked? then s.answer else None
  }

  function Responses(talk: seq<Saying>): (r: seq<Option<string>>)
    ensures |r| == |talk|
    ensures forall i :: 0 <= i < |talk| ==> r[i] == Response(talk[i])
  {
    if talk == [] then [] else Responses(talk[..|talk| - 1]) + [Response(talk[|talk| - 1])]
  }

  /** The slot of a prompt holds what the frontend answered to it, and no other slot holds anything. */
  predicate AnswersInPlace(talk: seq<Saying>, msgs: seq<Message>, slots: seq<Option<string>>) {
    && |talk| == |slots| == |msgs|
    && forall i :: 0 <= i < |msgs| ==>
         if msgs[i].style == PromptEchoOff || msgs[i].style == PromptEchoOn
         then talk[i].Asked? && talk[i].answer.Some? && slots[i] == talk[i].answer
         else slots[i] == None
  }

  lemma ResponsesAreAnswers(talk: seq<Saying>, msgs: seq<Message>)
    requires RelaysInOrder(talk, msgs) && IsComplete(talk, msgs)
    ensures AnswersInPlace(talk, msgs, Responses(talk))
  {
    forall i | 0 <= i < |msgs|
      ensures if msgs[i].style == PromptEchoOff || msgs[i].style == PromptEchoOn
              then talk[i].Asked? && talk[i].answer.Some? && Responses(talk)[i] == talk[i].answer
              else Responses(talk)[i] == None
    {
      assert Relays(talk[i], msgs[i]) && IsAnswered(talk[i]);
    }
  }

  /** Which saying relays which message: a prompt is asked with its text, shown or masked as its style
      says; texts and errors are told; an unknown style is never relayed. */
  lemma RelayByStyle(s: Saying, m: Message)
    ensures Relays(s, m) <==>
            match m.style
            case PromptEchoOff => s.Asked? && s.text == m.text && !s.echo
            case PromptEchoOn => s.Asked? && s.text == m.text && s.echo
            case TextInfo => s == Told(m.text)
            case ErrorMsg => s == Told(m.text)
            case Unknown(_) => false
  {
  }

  /** In a complete talk a prompt gets its own answer and nothing else gets any. */
  lemma ResponsesMatchPrompts(talk: seq<Saying>, msgs: seq<Message>)
    requires RelaysInOrder(talk, msgs) && IsComplete(talk, msgs)
    ensures |Responses(talk)| == |msgs|
    ensures forall i :: 0 <= i < |msgs| ==> (Responses(talk)[i].Some? <==> msgs[i].style.IsPrompt())
  {
    forall i | 0 <= i < |msgs| ensures Responses(talk)[i].Some? <==> msgs[i].style.IsPrompt() {
      assert Relays(talk[i], msgs[i]) && IsAnswered(talk[i]);
    }
  }

  /** The callback. `memory` says whether the array could be allocated. */
  method Converse(registry: Registry, handle: nat, msgs: seq<Message>, memory: bool)
    returns (code: Code, responses: array?<Option<string>>)
    modifies if handle in registry.entries then {registry.entries[handle]} else {}
    ensures code == Success <==> responses != null
    ensures responses != null ==> fresh(responses)
    ensures handle !in registry.entries || msgs == [] ==> code == ConvError
    ensures handle in registry.entries ==>
              var talk := registry.entries[handle].sayings;
              && old(registry.entries[handle].sayings) <= talk
              && var added := talk[|old(registry.entries[handle].sayings)|..];
              && RelaysInOrder(added, msgs)
              && (code == Success <==> msgs != [] && memory && IsComplete(added, msgs))
              && (code == Success ==> responses[..] == Responses(added) && AnswersInPlace(added, msgs, responses[..]))
              && (code != Success && msgs != [] && memory ==> code == ConvError && EndedEarly(added, msgs))
              && (msgs != [] && !memory ==> code == BufferError && added == [])
  {
    responses := null;
    if handle !in registry.entries {
      return ConvError, null;
    }
    var frontend := registry.entries[handle];
    if |msgs| == 0 {
      return ConvError, null;
    }
    if !memory {
      return BufferError, null;
    }
    ghost var before := frontend.sayings;
    ghost var added;
    code, responses, added := Answer(frontend, msgs);
    assert frontend.sayings[|before|..] == added;
  }

  lemma ResponsesSnoc(talk: seq<Saying>, s: Saying)
    ensures Responses(talk + [s]) == Responses(talk) + [Response(s)]
  {
    assert (talk + [s])[..|talk|] == talk;
  }

  lemma TalkGoesOn(talk: seq<Saying>, s: Saying, msgs: seq<Message>)
    requires RelaysInOrder(talk, msgs) && AllAnswered(talk)
    requires |talk| < |msgs| && Relays(s, msgs[|talk|])
    ensures RelaysInOrder(talk + [s], msgs) && Responses(talk + [s]) == Responses(talk) + [Response(s)]
    ensures IsAnswered(s) ==> AllAnswered(talk + [s])
    ensures !IsAnswered(s) ==> EndedEarly(talk + [s], msgs) && !IsComplete(talk + [s], msgs)
  {
    ResponsesSnoc(talk, s);
  }

  /** Relays one message. */
  method AnswerOne(frontend: Frontend, m: Message) returns (ok: bool, answer: Option<string>, ghost s: Saying)
    modifies frontend
    ensures m.style.Unknown? ==> !ok && frontend.sayings == old(frontend.sayings)
    ensures !m.style.Unknown? ==> frontend.sayings == old(frontend.sayings) + [s] && Relays(s, m)
    ensures !m.style.Unknown? ==> ok == IsAnswered(s) && (ok ==> answer == Response(s))
  {
    answer, s := None, Told(m.text);
    if m.style.IsPrompt() {
      answer := frontend.Prompt(m.text, m.style.PromptEchoOn?);
      s := Asked(m.text, m.style.PromptEchoOn?, answer);
      ok := answer.Some?;
    } else if !m.style.Unknown? {
      frontend.Info(m.text);
      ok := true;
    } else {
      ok := false;
    }
  }

  method FillSlots(frontend: Frontend, msgs: seq<Message>)
    returns (code: Code, responses: array?<Option<string>>, ghost added: seq<Saying>)
    requires msgs != []
    modifies frontend
    ensures frontend.sayings == old(frontend.sayings) + added
    ensures RelaysInOrder(added, msgs)
    ensures code == Success <==> IsComplete(added, msgs)
    ensures code == Success <==> responses != null
    ensures code == Success ==> fresh(responses) && responses[..] == Responses(added)
    ensures code != Success ==> code == ConvError && EndedEarly(added, msgs)
  {
    var filled := new Option<string>[|msgs|];
    added := [];
    var i := 0;
    while i < |msgs|
      invariant 0 <= i == |added| <= |msgs| && frontend.sayings == old(frontend.sayings) + added
      invariant RelaysInOrder(added, msgs) && AllAnswered(added)
      invariant filled[..i] == Responses(added)
    {
      var ok, answer, s := AnswerOne(frontend, msgs[i]);
      if !msgs[i].style.Unknown? {
        TalkGoesOn(added, s, msgs);
        Associate(old(frontend.sayings), added, [s]);
        added := added + [s];
      }
      if !ok {
        return ConvError, null, added;
      }
      filled[i] := answer;
      i := i + 1;
      assert filled[..i] == filled[..i - 1] + [answer];
    }
    assert filled[..] == filled[..i];
    return Success, filled, added;
  }

  /** The loop over the messages; on success the filled array has every answer in its place. */
  method Answer(frontend: Frontend, msgs: seq<Message>)
    returns (code: Code, responses: array?<Option<string>>, ghost added: seq<Saying>)
    requires msgs != []
    modifies frontend
    ensures frontend.sayings == old(frontend.sayings) + added
    ensures RelaysInOrder(added, msgs)
    ensures code == Success <==> IsComplete(added, msgs)
    ensures code == Success <==> responses != null
    ensures code == Success ==> fresh(responses) && responses[..] == Responses(added)
    ensures code == Success ==> AnswersInPlace(added, msgs, responses[..])
    ensures code != Success ==> code == ConvError && EndedEarly(added, msgs)
  {
    code, responses, added := FillSlots(frontend, msgs);
    if code == Success {
      ResponsesAreAnswers(added, msgs);
    }
  }

  /** The account check: only a successful authentication followed by a successful account check is
      a success, the second is not asked for without the first, and no handle outlives the call. */
  method VerifyOSAccount(registry: Registry, frontend: Frontend)
    returns (ok: bool, start: Code, authenticate: Option<Code>, account: Option<Code>)
    requires registry.Valid()
    modifies registry, frontend
    ensures registry.Valid() && registry.entries == old(registry.entries)
    ensures ok <==> start == Success && authenticate == Some(Success) && account == Some(Success)
    ensures authenticate.Some? <==> start == Success
    ensures account.Some? <==> authenticate == Some(Success)
    ensures start != Success ==> frontend.sayings == old(frontend.sayings)
    ensures old(frontend.sayings) <= frontend.sayings
  {
    authenticate, account := None, None;
    var id := registry.Register(frontend);
    start := *;
    if start == Success {
      var code := Conversations(registry, id);
      authenticate := Some(code);
      if code == Success {
        code := Conversations(registry, id);
        account := Some(code);
      }
    }
    ok := start == Success && authenticate == Some(Success) && account == Some(Success);
    registry.Unregister(id);
    assert registry.entries == old(registry.entries);
  }

  /** PAM calls back as often as it likes, with any messages, and then returns any code. */
  method Conversations(registry: Registry, id: nat) returns (code: Code)
    requires id in registry.entries
    modifies registry.entries[id]
    ensures old(registry.entries[id].sayings) <= registry.entries[id].sayings
  {
    var calls: int := *;
    while calls > 0
      invariant old(registry.entries[id].sayings) <= registry.entries[id].sayings
    {
      var msgs: seq<Message> := *;
      var memory: bool := *;
      var _, _ := Converse(registry, id, msgs, memory);
      calls := calls - 1;
    }
    code := *;
  }
}
