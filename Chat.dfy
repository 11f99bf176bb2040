/**
 * The chat panel: the input box, the active conversation, the busy flag and the
 * transcript, and `handleSendMessage`, which posts the trimmed input to `/api/chat` and
 * folds the answer into the transcript and the page's files.
 *
 * The send is split where the request goes out: `Begin` is everything before it, and
 * `Finish` everything after both of its `await`s (the `fetch` and the `res.json()`), taken
 * together as one step. What the network and the server return is the `FetchOutcome`
 * parameter.
 */
module Chat {
  import opened Js
  import Home

  datatype Role = User | Assistant

  /** One transcript entry `{type, content}`. */
  datatype Turn = Turn(role: Role, content: string)

  /** The conversation the next send continues: `{id, demo}`. */
  datatype ChatHandle = ChatHandle(id: Option<string>, demo: Option<string>)

  /** The JSON body sent to the endpoint: `{message, chatId}`, `chatId` absent when undefined. */
  datatype ChatRequest = ChatRequest(message: string, chatId: Option<string>)

  /** The parsed success body. */
  datatype ChatData = ChatData(
    id: Option<string>,
    demo: Option<string>,
    assistant: Option<string>,
    files: Option<seq<FileUpdate>>)

  /** How the request ended: `fetch` rejected, a non-OK status, a body that failed to parse, or data. */
  datatype FetchOutcome = TransportFailure | NotOk | BadJson | Received(data: ChatData)

  const FilesApplied: string := "Applied file updates."
  const SendFailed: string := "Sorry, there was an error. Please try again."

  /** `{message: userMessage, chatId: currentChat?.id}`. */
  function RequestFor(userMessage: string, current: Option<ChatHandle>): (req: ChatRequest)
    ensures req.message == userMessage
    ensures current.None? ==> req.chatId.None?
    ensures current.Some? ==> req.chatId == current.value.id
  {
    ChatRequest(userMessage, if current.Some? then current.value.id else None)
  }

  /** `data.assistant && data.assistant.trim().length`. */
  predicate ShowsAssistant(d: ChatData) {
    d.assistant.Some? && Trim(d.assistant.value) != ""
  }

  /** `data.files && data.files.length`. */
  predicate HasFiles(d: ChatData) {
    d.files.Some? && |d.files.value| > 0
  }

  /** What the page is asked to apply for this outcome. */
  function AppliedFiles(outcome: FetchOutcome): (r: Option<seq<FileUpdate>>)
    ensures r.Some? <==> outcome.Received? && HasFiles(outcome.data)
    ensures r.Some? ==> r == outcome.data.files && r.value != []
  {
    if outcome.Received? && HasFiles(outcome.data) then outcome.data.files else None
  }

  /** The assistant turns a finished request appends. */
  function ReplyTurns(outcome: FetchOutcome): (turns: seq<Turn>)
    ensures |turns| <= 2
    ensures forall i | 0 <= i < |turns| :: turns[i].role == Assistant
    ensures !outcome.Received? ==> turns == [Turn(Assistant, SendFailed)]
    ensures outcome.Received? ==>
      |turns| == (if ShowsAssistant(outcome.data) then 1 else 0) + (if HasFiles(outcome.data) then 1 else 0)
    ensures outcome.Received? && ShowsAssistant(outcome.data) ==>
      turns[0] == Turn(Assistant, outcome.data.assistant.value)
    ensures outcome.Received? && HasFiles(outcome.data) ==> turns[|turns| - 1] == Turn(Assistant, FilesApplied)
  {
    match outcome
    case Received(d) =>
      (if ShowsAssistant(d) then [Turn(Assistant, d.assistant.value)] else [])
      + (if HasFiles(d) then [Turn(Assistant, FilesApplied)] else [])
    case _ => [Turn(Assistant, SendFailed)]
  }

  /** The conversation after the request: replaced on success, kept otherwise. */
  function NextChat(current: Option<ChatHandle>, outcome: FetchOutcome): (r: Option<ChatHandle>)
    ensures outcome.Received? ==> r == Some(ChatHandle(outcome.data.id, outcome.data.demo))
    ensures !outcome.Received? ==> r == current
  {
    if outcome.Received? then Some(ChatHandle(outcome.data.id, outcome.data.demo)) else current
  }

  /** A send is accepted unless the trimmed input is empty or a send is in flight. */
  predicate Accepts(message: string, isLoading: bool): (b: bool)
    ensures b <==> !isLoading && exists i | 0 <= i < |message| :: !IsWhitespace(message[i])
  {
    Trim(message) != "" && !isLoading
  }

  class ChatPanel {
    var message: string
    var currentChat: Option<ChatHandle>
    var isLoading: bool
    var history: seq<Turn>

    constructor ()
      ensures message == "" && currentChat == None && !isLoading && history == []
    {
      message := "";
      currentChat := None;
      isLoading := false;
      history := [];
    }

    /** Typing into the input box. */
    method SetMessage(text: string)
      modifies this
      ensures message == text
      ensures currentChat == old(currentChat) && isLoading == old(isLoading) && history == old(history)
    {
      message := text;
    }

    /**
     * `handleSendMessage` up to the request: ignored when the trimmed input is empty or a
     * send is in flight; otherwise clears the input, sets the busy flag, appends the
     * trimmed input as a user turn, and yields the request to post.
     */
    method Begin() returns (request: Option<ChatRequest>)
      modifies this
      ensures !Accepts(old(message), old(isLoading)) ==>
        request.None? && message == old(message) && isLoading == old(isLoading) && history == old(history)
      ensures Accepts(old(message), old(isLoading)) ==>
        && request == Some(RequestFor(Trim(old(message)), old(currentChat)))
        && message == "" && isLoading
        && history == old(history) + [Turn(User, Trim(old(message)))]
      ensures currentChat == old(currentChat)
    {
      if Trim(message) == "" || isLoading {
        return None;
      }
      var userMessage := Trim(message);
      message := "";
      isLoading := true;
      history := history + [Turn(User, userMessage)];
      request := Some(RequestFor(userMessage, currentChat));
    }

    /**
     * `handleSendMessage` after the request: on data, the conversation is replaced, a
     * non-blank reply is appended untrimmed, and non-empty files are handed to the page
     * and acknowledged; on any failure one apology turn is appended and the conversation
     * is kept. The busy flag is cleared on every path.
     */
    method Finish(outcome: FetchOutcome, page: Home.Page)
      requires page.Valid()
      modifies this, page
      ensures page.Valid()
      ensures !isLoading
      ensures message == old(message)
      ensures currentChat == NextChat(old(currentChat), outcome)
      ensures history == old(history) + ReplyTurns(outcome)
      ensures AppliedFiles(outcome).None? ==> page.files == old(page.files) && page.selected == old(page.selected)
      ensures AppliedFiles(outcome).Some? ==>
        var us := AppliedFiles(outcome).value;
        page.files == Home.ApplyAll(old(page.files), us) && page.selected == us[0].path
    {
      match outcome {
        case Received(data) =>
          currentChat := Some(ChatHandle(data.id, data.demo));
          if data.assistant.Some? && Trim(data.assistant.value) != "" {
            history := history + [Turn(Assistant, data.assistant.value)];
          }
          if data.files.Some? && |data.files.value| > 0 {
            page.ApplyUpdates(data.files);
            history := history + [Turn(Assistant, FilesApplied)];
          }
        case _ =>
          history := history + [Turn(Assistant, SendFailed)];
      }
      isLoading := false;
    }

    /**
     * One whole send, with `outcome` standing for whatever the request comes back with.
     * Returns the request that was posted, if the send was accepted.
     */
    method HandleSendMessage(outcome: FetchOutcome, page: Home.Page) returns (request: Option<ChatRequest>)
      requires page.Valid()
      modifies this, page
      ensures page.Valid()
      ensures !isLoading || (old(isLoading) && request.None?)
      ensures request.None? ==>
        message == old(message) && isLoading == old(isLoading) && history == old(history)
        && currentChat == old(currentChat) && page.files == old(page.files) && page.selected == old(page.selected)
      ensures request.Some? <==> Accepts(old(message), old(isLoading))
      ensures request.Some? ==>
        && request.value == RequestFor(Trim(old(message)), old(currentChat))
        && message == ""
        && history == old(history) + [Turn(User, Trim(old(message)))] + ReplyTurns(outcome)
        && 1 <= |history| - |old(history)| <= 3
        && currentChat == NextChat(old(currentChat), outcome)
      ensures request.Some? && AppliedFiles(outcome).None? ==>
        page.files == old(page.files) && page.selected == old(page.selected)
      ensures request.Some? && AppliedFiles(outcome).Some? ==>
        var us := AppliedFiles(outcome).value;
        page.files == Home.ApplyAll(old(page.files), us) && page.selected == us[0].path
    {
      request := Begin();
      if request.Some? {
        Finish(outcome, page);
      }
    }
  }
}
