/**
 * The chat session of the chat component: the transcript, the input box,
 * the loading flag and the workspace (generated code, preview counter and
 * selected tab), with the submit and reset handlers that update them.
 *
 * The asynchronous submit is split at its `await`: `BeginSubmit` is what
 * runs before the request goes out, `CompleteSubmit` what runs once the reply
 * (or a failure) is in. `Submit` is the two in one step, for a reply that
 * arrives before anything else happens.
 */
module ChatSession {
  import opened Text
  import opened ResponseSplitter

  datatype Role = User | Model

  /** The two workspace tabs. */
  datatype Tab = Preview | CodeTab

  /** One transcript entry; `upgrades` is absent unless the model suggested some. */
  datatype ChatMessage = ChatMessage(role: Role, text: string, upgrades: Option<seq<string>>)

  /** One earlier message as the chat service receives it. */
  datatype HistoryEntry = HistoryEntry(role: Role, parts: seq<string>)

  /** What a submit sends: the prompt and the conversation before it. */
  datatype Request = Request(prompt: string, history: seq<HistoryEntry>)

  /** What the chat service gives back: the reply text, or a failure. */
  datatype Reply = Received(text: string) | Failed

  const Greeting: string :=
    "INITIATING BONK PROTOCOL v2.0...\n\nI am Bonk GPT. I build flawless apps, games, and smart contracts.\n\nTell me what to ship. \U{1F680}"
  const ResetNotice: string := "System Reset. Memory Cleared. Ready for new input."
  const FailureNotice: string := "Network congested. Vibes are too high. Try again."

  /** Only model messages carry upgrades, and those they carry form a
      non-empty list of non-empty, trimmed items. */
  predicate WellFormed(m: ChatMessage) {
    m.upgrades.Some? ==>
      && m.role == Model
      && |m.upgrades.value| > 0
      && forall i :: 0 <= i < |m.upgrades.value| ==>
           m.upgrades.value[i] != [] && IsTrimmed(m.upgrades.value[i])
  }

  /** The transcript in the shape the chat service takes: one entry per
      message, with the same role and the text as the only part. */
  function History(messages: seq<ChatMessage>): (h: seq<HistoryEntry>)
    ensures |h| == |messages|
    ensures forall i :: 0 <= i < |h| ==> h[i].role == messages[i].role && h[i].parts == [messages[i].text]
  {
    if messages == [] then []
    else [HistoryEntry(messages[0].role, [messages[0].text])] + History(messages[1..])
  }

  /** The model message a reply becomes: the narrative of the reply with its
      upgrades when there are any, or the failure notice. */
  function ReplyMessage(reply: Reply): (m: ChatMessage)
    ensures m.role == Model && WellFormed(m)
    ensures m.upgrades.Some? <==> reply.Received? && ExtractUpgrades(reply.text) != []
    ensures reply.Received? ==> IsTrimmed(m.text) && !HasHeading(m.text)
  {
    match reply
    case Failed => ChatMessage(Model, FailureNotice, None)
    case Received(text) =>
      var upgrades := ExtractUpgrades(text);
      ChatMessage(Model, CleanText(text), if |upgrades| > 0 then Some(upgrades) else None)
  }

  /** The code a reply puts in the workspace: the extracted code unless it
      is missing or empty (an empty string is falsy). */
  function NewCode(reply: Reply): (r: Option<string>)
    ensures r.Some? <==> reply.Received? && ExtractCode(reply.text).Some? && ExtractCode(reply.text).value != []
    ensures r.Some? ==> r.value == ExtractCode(reply.text).value && r.value != [] && IsTrimmed(r.value)
  {
    match reply
    case Failed => None
    case Received(text) =>
      match ExtractCode(text)
      case None => None
      case Some(code) => if code == [] then None else Some(code)
  }

  /** Appending a well-formed message keeps a transcript well formed. */
  lemma AppendWellFormed(messages: seq<ChatMessage>, m: ChatMessage)
    requires forall i :: 0 <= i < |messages| ==> WellFormed(messages[i])
    requires WellFormed(m)
    ensures forall i :: 0 <= i < |messages + [m]| ==> WellFormed((messages + [m])[i])
  {
  }

  class Session {
    var messages: seq<ChatMessage>
    var input: string
    var isLoading: bool
    var activeTab: Tab
    var generatedCode: string
    var previewKey: nat

    /** The transcript is never empty and every message is well formed; the
        workspace code is trimmed, and once there is code the preview has
        been refreshed at least once. */
    predicate Valid()
      reads this
    {
      && |messages| >= 1
      && (forall i :: 0 <= i < |messages| ==> WellFormed(messages[i]))
      && IsTrimmed(generatedCode)
      && (generatedCode != [] ==> previewKey > 0)
    }

    constructor ()
      ensures Valid()
      ensures messages == [ChatMessage(Model, Greeting, None)]
      ensures input == [] && !isLoading && activeTab == Preview
      ensures generatedCode == [] && previewKey == 0
    {
      messages := [ChatMessage(Model, Greeting, None)];
      input := [];
      isLoading := false;
      activeTab := Preview;
      generatedCode := [];
      previewKey := 0;
    }

    /** Typing into the input box. */
    method SetInput(text: string)
      requires Valid()
      modifies this
      ensures Valid()
      ensures input == text
      ensures messages == old(messages) && isLoading == old(isLoading) && activeTab == old(activeTab)
      ensures generatedCode == old(generatedCode) && previewKey == old(previewKey)
    {
      input := text;
    }

    /** The part of a submit before the request is sent. A blank input or a
        submit already in flight changes nothing and sends nothing; otherwise
        the input becomes a user message, the box is cleared, loading starts,
        and the request carries the input and the transcript as it was
        before the new message. */
    method BeginSubmit() returns (request: Option<Request>)
      requires Valid()
      modifies this
      ensures Valid()
      ensures request.None? <==> AllWhitespace(old(input)) || old(isLoading)
      ensures request.None? ==>
        && messages == old(messages) && input == old(input) && isLoading == old(isLoading)
      ensures request.Some? ==>
        && request.value == Request(old(input), History(old(messages)))
        && messages == old(messages) + [ChatMessage(User, old(input), None)]
        && input == [] && isLoading
      ensures activeTab == old(activeTab) && generatedCode == old(generatedCode)
      ensures previewKey == old(previewKey)
    {
      if AllWhitespace(input) || isLoading {
        return None;
      }
      var prompt := input;
      var history := History(messages);
      messages := messages + [ChatMessage(User, prompt, None)];
      input := [];
      isLoading := true;
      request := Some(Request(prompt, history));
    }

    /** The part of a submit after the reply is in: exactly one model message
        is appended, non-empty code goes to the workspace with a fresh
        preview on the preview tab, and loading ends. */
    method CompleteSubmit(reply: Reply)
      requires Valid() && isLoading
      modifies this
      ensures Valid()
      ensures messages == old(messages) + [ReplyMessage(reply)]
      ensures !isLoading && input == old(input)
      ensures NewCode(reply).Some? ==>
        generatedCode == NewCode(reply).value && previewKey == old(previewKey) + 1 && activeTab == Preview
      ensures NewCode(reply).None? ==>
        generatedCode == old(generatedCode) && previewKey == old(previewKey) && activeTab == old(activeTab)
    {
      AppendMessage(ReplyMessage(reply));
      LoadCode(NewCode(reply));
      isLoading := false;
    }

    /** Adds one message to the end of the transcript; nothing else changes. */
    method AppendMessage(message: ChatMessage)
      requires Valid() && WellFormed(message)
      modifies this
      ensures Valid()
      ensures messages == old(messages) + [message]
      ensures input == old(input) && isLoading == old(isLoading) && activeTab == old(activeTab)
      ensures generatedCode == old(generatedCode) && previewKey == old(previewKey)
    {
      AppendWellFormed(messages, message);
      messages := messages + [message];
    }

    /** Code, when there is some, replaces the workspace code,
        bumps the preview counter and selects the preview tab. */
    method LoadCode(code: Option<string>)
      requires Valid() && (code.Some? ==> IsTrimmed(code.value))
      modifies this
      ensures Valid()
      ensures messages == old(messages) && input == old(input) && isLoading == old(isLoading)
      ensures code.Some? ==>
        generatedCode == code.value && previewKey == old(previewKey) + 1 && activeTab == Preview
      ensures code.None? ==>
        generatedCode == old(generatedCode) && previewKey == old(previewKey) && activeTab == old(activeTab)
    {
      if code.Some? {
        generatedCode := code.value;
        previewKey := previewKey + 1;
        activeTab := Preview;
      }
    }

    /** A whole submit whose reply arrives before anything else happens. */
    method Submit(reply: Reply) returns (request: Option<Request>)
      requires Valid()
      modifies this
      ensures Valid()
      ensures request.None? <==> AllWhitespace(old(input)) || old(isLoading)
      ensures request.None? ==>
        && messages == old(messages) && input == old(input) && isLoading == old(isLoading)
        && generatedCode == old(generatedCode) && previewKey == old(previewKey)
        && activeTab == old(activeTab)
      ensures request.Some? ==>
        && request.value == Request(old(input), History(old(messages)))
        && messages == old(messages) + [ChatMessage(User, old(input), None), ReplyMessage(reply)]
        && input == [] && !isLoading
      ensures request.Some? && NewCode(reply).Some? ==>
        generatedCode == NewCode(reply).value && previewKey == old(previewKey) + 1 && activeTab == Preview
      ensures request.Some? && NewCode(reply).None? ==>
        generatedCode == old(generatedCode) && previewKey == old(previewKey) && activeTab == old(activeTab)
    {
      request := BeginSubmit();
      if request.Some? {
        CompleteSubmit(reply);
      }
    }

    /** The reset button: the transcript becomes the reset notice alone and
        the workspace code is cleared. */
    method Reset()
      requires Valid()
      modifies this
      ensures Valid()
      ensures messages == [ChatMessage(Model, ResetNotice, None)] && generatedCode == []
      ensures input == old(input) && isLoading == old(isLoading)
      ensures activeTab == old(activeTab) && previewKey == old(previewKey)
    {
      messages := [ChatMessage(Model, ResetNotice, None)];
      generatedCode := [];
    }
  }
}
