/**
 * The two sides of `/api/chat` put together: the JSON body the chat panel sends becomes
 * the endpoint's request, and the endpoint's response becomes the panel's outcome.
 */
module Protocol {
  import opened Js
  import opened ChatRoute
  import opened Chat

  /** `JSON.stringify({message, chatId})` as the endpoint parses it; the other fields are absent. */
  function ToRequestBody(req: ChatRequest): (body: RequestBody)
    ensures body.message == Some(req.message) && body.chatId == req.chatId
    ensures body.system.None? && body.responseMode.None?
  {
    RequestBody(Some(req.message), req.chatId, None, None)
  }

  /**
   * What the panel makes of a response: `res.ok` decides alone. Any 2xx body is read as
   * data; an `{error}` body then has every data field undefined. Other statuses throw.
   */
  function ToFetchOutcome(resp: HttpResponse): (outcome: FetchOutcome)
    ensures outcome.Received? <==> 200 <= resp.status < 300
    ensures outcome.Received? && resp.body.ChatBody? ==>
      outcome.data == ChatData(resp.body.id, resp.body.demo, Some(resp.body.assistant), Some(resp.body.files))
    ensures outcome.Received? && resp.body.ErrorBody? ==> outcome.data == ChatData(None, None, None, None)
  {
    if !(200 <= resp.status < 300) then NotOk
    else match resp.body
      case ChatBody(id, demo, assistant, files) => Received(ChatData(id, demo, Some(assistant), Some(files)))
      case ErrorBody(_) => Received(ChatData(None, None, None, None))
  }

  /** A trimmed, non-blank message is truthy, so a request the panel sends always passes validation. */
  lemma PanelRequestIsValid(text: string, current: Option<ChatHandle>)
    requires Trim(text) != ""
    ensures Truthy(ToRequestBody(RequestFor(Trim(text), current)).message)
  {
  }

  /**
   * The first send of a conversation creates a chat; once the panel holds a truthy chat
   * id, every later send continues that chat. Either way in the default mode.
   */
  lemma PanelCallsProvider(text: string, current: Option<ChatHandle>)
    requires Trim(text) != ""
    ensures var call := CallFor(ToRequestBody(RequestFor(Trim(text), current)));
      && call.message == Trim(text)
      && call.responseMode == "sync"
      && (current.None? ==> call == Create(Trim(text), "sync"))
      && (current.Some? && Truthy(current.value.id) ==> call == SendMessage(current.value.id.value, Trim(text), "sync"))
      && (current.Some? && !Truthy(current.value.id) ==> call == Create(Trim(text), "sync"))
  {
  }

  /** Every failure the endpoint reports reaches the transcript as the one apology. */
  lemma FailuresBecomeApology(resp: HttpResponse)
    requires resp == MessageRequired || resp == ProcessingFailed
    ensures ReplyTurns(ToFetchOutcome(resp)) == [Turn(Assistant, SendFailed)]
  {
  }

  /**
   * After a successful round trip the panel continues the chat the provider returned,
   * shows the scrubbed reply when it is not blank, and acknowledges files exactly when
   * the provider's latest version carried some.
   */
  lemma SuccessReachesPanel(chat: ProviderChat)
    ensures var resp := HttpResponse(200, ChatBody(chat.id, ResponseDemo(Some(chat)),
                                                   AssistantText(Some(chat)), ResponseFiles(Some(chat))));
      var outcome := ToFetchOutcome(resp);
      && NextChat(None, outcome) == Some(ChatHandle(chat.id, ResponseDemo(Some(chat))))
      && (ShowsAssistant(outcome.data) <==> Trim(AssistantText(Some(chat))) != "")
      && (HasFiles(outcome.data) <==>
            chat.latestVersion.Some? && chat.latestVersion.value.files.Some? && chat.latestVersion.value.files.value != [])
      && (AppliedFiles(outcome).Some? ==> |AppliedFiles(outcome).value| == |chat.latestVersion.value.files.value|)
  {
  }

  /**
   * The endpoint's response decides the panel's reply: a failed call yields the apology,
   * a successful one yields the reply and file turns of the provider's chat.
   */
  lemma EndpointDecidesReply(body: RequestBody, provider: ProviderCall -> ProviderOutcome, resp: HttpResponse)
    requires Truthy(body.message)
    requires resp.status == 200 <==> provider(CallFor(body)).Resolved? && provider(CallFor(body)).chat.Some?
    requires resp.status != 200 ==> resp == MessageRequired || resp == ProcessingFailed
    requires resp.status == 200 ==>
      var chat := provider(CallFor(body)).chat;
      resp.body == ChatBody(chat.value.id, ResponseDemo(chat), AssistantText(chat), ResponseFiles(chat))
    ensures !(provider(CallFor(body)).Resolved? && provider(CallFor(body)).chat.Some?) ==>
      ReplyTurns(ToFetchOutcome(resp)) == [Turn(Assistant, SendFailed)]
    ensures provider(CallFor(body)).Resolved? && provider(CallFor(body)).chat.Some? ==>
      var chat := provider(CallFor(body)).chat;
      ToFetchOutcome(resp) == Received(ChatData(chat.value.id, ResponseDemo(chat), Some(AssistantText(chat)),
                                                Some(ResponseFiles(chat))))
  {
  }
}
