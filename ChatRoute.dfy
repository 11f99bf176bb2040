/**
 * The chat proxy endpoint `POST /api/chat`: it validates the request, asks the code
 * generation provider to start or continue a conversation, and reshapes the provider's
 * loosely structured reply into `{id, demo, assistant, files}`.
 *
 * The provider (the SDK's `chats.create` and `chats.sendMessage`) is a function value:
 * given the call the endpoint makes, it either resolves to a reply (possibly `null`)
 * or rejects.
 */
module ChatRoute {
  import opened Js
  import opened Thinking

  /** One entry of the provider's `messages` list; a `null` entry has every field absent. */
  datatype ProviderMessage = ProviderMessage(role: Option<string>, content: Option<string>, text: Option<string>)

  /** One generated file of the provider's latest version. */
  datatype ProviderFile = ProviderFile(name: string, content: string)

  /** The provider's `latestVersion` object. */
  datatype ProviderVersion = ProviderVersion(files: Option<seq<ProviderFile>>, demoUrl: Option<string>)

  /** The provider's chat object, with every field the endpoint reads. */
  datatype ProviderChat = ProviderChat(
    id: Option<string>,
    demo: Option<string>,
    messages: Option<seq<ProviderMessage>>,
    latestMessage: Option<ProviderMessage>,
    latestVersion: Option<ProviderVersion>)

  /** The provider operation the endpoint invokes. */
  datatype ProviderCall =
    | Create(message: string, responseMode: string)
    | SendMessage(chatId: string, message: string, responseMode: string)

  /** What the provider's promise settles to. */
  datatype ProviderOutcome = Resolved(chat: Option<ProviderChat>) | Rejected

  /** The parsed JSON body of the request. */
  datatype RequestBody = RequestBody(
    message: Option<string>,
    chatId: Option<string>,
    system: Option<string>,
    responseMode: Option<string>)

  datatype ResponseBody =
    | ErrorBody(error: string)
    | ChatBody(id: Option<string>, demo: Option<string>, assistant: string, files: seq<FileUpdate>)

  datatype HttpResponse = HttpResponse(status: int, body: ResponseBody)

  const MessageRequired: HttpResponse := HttpResponse(400, ErrorBody("Message is required"))
  const ProcessingFailed: HttpResponse := HttpResponse(500, ErrorBody("Failed to process request"))

  predicate IsAssistant(m: ProviderMessage) {
    m.role == Some("assistant")
  }

  // ---------------------------------------------------------------------------
  // pickAssistant

  /** The index of the last assistant-role message, if any. */
  function LastAssistant(msgs: seq<ProviderMessage>): (r: Option<nat>)
    ensures r.Some? ==> r.value < |msgs| && IsAssistant(msgs[r.value])
    ensures r.Some? ==> forall j | r.value < j < |msgs| :: !IsAssistant(msgs[j])
    ensures r.None? ==> forall j | 0 <= j < |msgs| :: !IsAssistant(msgs[j])
  {
    if msgs == [] then None
    else if IsAssistant(msgs[|msgs| - 1]) then Some(|msgs| - 1)
    else LastAssistant(msgs[..|msgs| - 1])
  }

  /** `resp?.messages || []`. */
  function Messages(resp: Option<ProviderChat>): seq<ProviderMessage> {
    if resp.Some? && resp.value.messages.Some? then resp.value.messages.value else []
  }

  /** `m.content || m.text || ""`. */
  function MessageText(m: ProviderMessage): string {
    OrElse(Or(m.content, m.text), "")
  }

  /** `resp?.latestMessage?.content || ""`. */
  function LatestText(resp: Option<ProviderChat>): string {
    if resp.Some? && resp.value.latestMessage.Some? then OrElse(resp.value.latestMessage.value.content, "")
    else ""
  }

  /** The text the reply is taken from, before the reasoning spans are removed. */
  function RawAssistantText(resp: Option<ProviderChat>): string {
    match LastAssistant(Messages(resp))
    case Some(i) => MessageText(Messages(resp)[i])
    case None => LatestText(resp)
  }

  /** What `pickAssistant` returns: the raw reply text with every reasoning span removed. */
  function AssistantText(resp: Option<ProviderChat>): string {
    Strip(RawAssistantText(resp))
  }

  /**
   * `pickAssistant`: scans the messages from the end for the first assistant-role entry
   * and takes its content or text; with none, falls back to the latest message's content.
   */
  method PickAssistant(resp: Option<ProviderChat>) returns (content: string)
    ensures content == AssistantText(resp)
  {
    var msgs := if resp.Some? && resp.value.messages.Some? then resp.value.messages.value else [];
    var i := |msgs| - 1;
    while i >= 0
      invariant -1 <= i < |msgs|
      invariant LastAssistant(msgs) == LastAssistant(msgs[..i + 1])
      decreases i
    {
      if msgs[i].role == Some("assistant") {
        assert msgs[..i + 1][..i] == msgs[..i];
        content := OrElse(Or(msgs[i].content, msgs[i].text), "");
        content := StripThinking(content);
        return;
      }
      assert msgs[..i + 1][..i] == msgs[..i];
      i := i - 1;
    }
    var latestContent := if resp.Some? && resp.value.latestMessage.Some?
      then OrElse(resp.value.latestMessage.value.content, "") else "";
    latestContent := StripThinking(latestContent);
    return latestContent;
  }

  /** The assistant text comes from the last assistant-role message, whatever precedes it. */
  lemma AssistantFromLastAssistant(chat: ProviderChat, earlier: seq<ProviderMessage>, m: ProviderMessage,
                                   later: seq<ProviderMessage>)
    requires IsAssistant(m)
    requires forall j | 0 <= j < |later| :: !IsAssistant(later[j])
    requires chat.messages == Some(earlier + [m] + later)
    ensures AssistantText(Some(chat)) == Strip(MessageText(m))
  {
    var msgs := earlier + [m] + later;
    var k := |earlier|;
    assert msgs[k] == m;
    var r := LastAssistant(msgs);
    assert r.Some? && !(r.value > k) && !(r.value < k) by {
      assert IsAssistant(msgs[k]);
      forall j | k < j < |msgs| ensures !IsAssistant(msgs[j]) {
        assert msgs[j] == later[j - k - 1];
      }
    }
  }

  /** With no assistant-role message (or no list at all) the latest message's content is used. */
  lemma AssistantFallsBackToLatest(resp: Option<ProviderChat>)
    requires forall j | 0 <= j < |Messages(resp)| :: !IsAssistant(Messages(resp)[j])
    ensures AssistantText(resp) == Strip(LatestText(resp))
    ensures resp.None? || resp.value.latestMessage.None? ==> AssistantText(resp) == ""
  {
  }

  /** The reply shown is never longer than the text it was taken from. */
  lemma AssistantNoLonger(resp: Option<ProviderChat>)
    ensures |AssistantText(resp)| <= |RawAssistantText(resp)|
  {
    StripNoLonger(RawAssistantText(resp));
  }

  // ---------------------------------------------------------------------------
  // files and demo

  /** `files.map(f => ({path: f.name, content: f.content}))`. */
  function ToUpdates(files: seq<ProviderFile>): (r: seq<FileUpdate>)
    ensures |r| == |files|
    ensures forall i | 0 <= i < |files| :: r[i].path == files[i].name && r[i].content == files[i].content
  {
    if files == [] then [] else [FileUpdate(files[0].name, files[0].content)] + ToUpdates(files[1..])
  }

  /** `(chat?.latestVersion?.files || []).map(...)`. */
  function ResponseFiles(chat: Option<ProviderChat>): (r: seq<FileUpdate>)
    ensures chat.None? || chat.value.latestVersion.None? || chat.value.latestVersion.value.files.None? ==> r == []
    ensures chat.Some? && chat.value.latestVersion.Some? && chat.value.latestVersion.value.files.Some? ==>
      var fs := chat.value.latestVersion.value.files.value;
      |r| == |fs| && forall i | 0 <= i < |fs| :: r[i] == FileUpdate(fs[i].name, fs[i].content)
  {
    if chat.Some? && chat.value.latestVersion.Some? && chat.value.latestVersion.value.files.Some?
    then ToUpdates(chat.value.latestVersion.value.files.value)
    else []
  }

  /** `chat?.latestVersion?.demoUrl || chat?.demo || null`. */
  function ResponseDemo(chat: Option<ProviderChat>): (r: Option<string>)
    ensures r.Some? ==> r.value != ""
    ensures chat.Some? && chat.value.latestVersion.Some? && Truthy(chat.value.latestVersion.value.demoUrl) ==>
      r == chat.value.latestVersion.value.demoUrl
    ensures chat.Some? && !(chat.value.latestVersion.Some? && Truthy(chat.value.latestVersion.value.demoUrl)) ==>
      r == (if Truthy(chat.value.demo) then chat.value.demo else None)
    ensures chat.None? ==> r.None?
  {
    var versionDemo := if chat.Some? && chat.value.latestVersion.Some? then chat.value.latestVersion.value.demoUrl else None;
    var chatDemo := if chat.Some? then chat.value.demo else None;
    if Truthy(versionDemo) then versionDemo
    else if Truthy(chatDemo) then chatDemo
    else None
  }

  // ---------------------------------------------------------------------------
  // POST

  /** The provider call for a validated request: continue when `chatId` is truthy, else create. */
  function CallFor(body: RequestBody): (call: ProviderCall)
    requires Truthy(body.message)
    ensures call.message == body.message.value
    ensures call.responseMode == OrElse(body.responseMode, "sync")
    ensures call.SendMessage? <==> Truthy(body.chatId)
    ensures call.SendMessage? ==> call.chatId == body.chatId.value
  {
    var mode := OrElse(body.responseMode, "sync");
    if Truthy(body.chatId) then SendMessage(body.chatId.value, body.message.value, mode)
    else Create(body.message.value, mode)
  }

  /** The `system` field of the request is read but never forwarded to the provider. */
  lemma SystemNotForwarded(body: RequestBody, system: Option<string>)
    requires Truthy(body.message)
    ensures CallFor(body.(system := system)) == CallFor(body)
  {
  }

  /**
   * The endpoint. `body` is None when reading it throws: invalid JSON, or `null`, which
   * cannot be destructured. Any other JSON value destructures, with the fields a
   * non-object lacks absent. Returns the HTTP response and the provider call made, if any.
   */
  method Post(body: Option<RequestBody>, provider: ProviderCall -> ProviderOutcome)
    returns (response: HttpResponse, called: Option<ProviderCall>)
    ensures body.None? ==> response == ProcessingFailed && called == None
    ensures body.Some? && !Truthy(body.value.message) ==> response == MessageRequired && called == None
    ensures body.Some? && Truthy(body.value.message) ==> called == Some(CallFor(body.value))
    ensures called.Some? ==> (provider(called.value).Resolved? && provider(called.value).chat.Some? <==> response.status == 200)
    ensures response.status == 200 ==>
      called.Some? &&
      var chat := provider(called.value).chat;
      response.body == ChatBody(chat.value.id, ResponseDemo(chat), AssistantText(chat), ResponseFiles(chat))
    ensures response.status != 200 ==> response == MessageRequired || response == ProcessingFailed
    ensures response == MessageRequired ==> called == None
  {
    called := None;
    if body.None? {
      return ProcessingFailed, called;
    }
    var message, chatId, responseMode := body.value.message, body.value.chatId, body.value.responseMode;
    if !Truthy(message) {
      return MessageRequired, called;
    }

    var outcome: ProviderOutcome;
    if Truthy(chatId) {
      called := Some(SendMessage(chatId.value, message.value, OrElse(responseMode, "sync")));
    } else {
      called := Some(Create(message.value, OrElse(responseMode, "sync")));
    }
    outcome := provider(called.value);
    if outcome.Rejected? {
      return ProcessingFailed, called;
    }
    var chat := outcome.chat;

    var files := ResponseFiles(chat);
    var demo := ResponseDemo(chat);
    var assistant := PickAssistant(chat);
    if chat.None? {
      // `chat.id` on a null reply throws
      return ProcessingFailed, called;
    }
    response := HttpResponse(200, ChatBody(chat.value.id, demo, assistant, files));
  }
}
