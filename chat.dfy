/**
 * The chat state of the test-generator webview (resources/webview/main.js)
 * with the DOM left out: the conversation history, the message-id counter,
 * the `isGenerating` gate, the input box's text, the messages posted to the
 * extension, and the last snapshot handed to `vscode.setState`. The clock is
 * a parameter (`now`) of the operations that stamp a message.
 */
module Chat {
  import opened Wrappers
  import opened Strings
  import JavaParser

  datatype Role = User | Assistant

  /** The `type` of a message: `'text'`, `'code'` or `'error'`. */
  datatype MessageType = Text | Code | Error

  datatype Message = Message(id: string, role: Role, content: string, timestamp: int,
                             msgType: MessageType, hasCodeActions: bool)

  /** A message posted to the extension with `vscode.postMessage`. */
  datatype Posted =
    | ChatRequest(content: string, msgType: MessageType, conversationHistory: seq<Message>)
    | SaveTests(tests: string, className: string)

  /** The state saved with `vscode.setState`, restored as a whole. */
  datatype Snapshot = Snapshot(conversationHistory: seq<Message>, messageIdCounter: nat)

  /** The prefix of the content of an error reply. */
  const ErrorPrefix := "\U{274C} Error: "

  /** The class name `saveTestFile` falls back to. */
  const DefaultClassName := "GeneratedTest"

  // ---------------------------------------------------------------------------
  // Message ids
  // ---------------------------------------------------------------------------

  predicate IsDigit(c: char) {
    '0' <= c <= '9'
  }

  /** The decimal text of `n`, as a template literal prints it: no leading zeros. */
  function Decimal(n: nat): (r: string)
    ensures r != [] && forall k :: 0 <= k < |r| ==> IsDigit(r[k])
    ensures n >= 10 ==> r[0] != '0'
    decreases n
  {
    if n < 10 then [('0' as int + n) as char]
    else Decimal(n / 10) + [('0' as int + n % 10) as char]
  }

  /** The value of a string of decimal digits. */
  function DecimalValue(s: string): nat
    requires forall k :: 0 <= k < |s| ==> IsDigit(s[k])
    decreases |s|
  {
    if |s| == 0 then 0
    else
      var d := s[|s| - 1];
      assert IsDigit(d);
      DecimalValue(s[..|s| - 1]) * 10 + (d as int - '0' as int)
  }

  /** Reading a printed number back gives the number. */
  lemma {:induction false} DecimalRoundTrip(n: nat)
    ensures DecimalValue(Decimal(n)) == n
    decreases n
  {
    if n >= 10 {
      var d := Decimal(n / 10);
      DecimalRoundTrip(n / 10);
      assert (d + [('0' as int + n % 10) as char])[..|d|] == d;
    }
  }

  /** The id `msg-${n}`. */
  function MessageId(n: nat): (id: string)
    ensures |id| > 4 && id[..4] == "msg-"
  {
    "msg-" + Decimal(n)
  }

  /** The counter value an id was made from, if it has the form `msg-<digits>`. */
  function IdSerial(id: string): Option<nat> {
    if |id| > 4 && id[..4] == "msg-" && forall k :: 4 <= k < |id| ==> IsDigit(id[k])
    then Some(DecimalValue(id[4..]))
    else None
  }

  /** Every id carries the counter value it was made from. */
  lemma MessageIdRoundTrip(n: nat)
    ensures IdSerial(MessageId(n)) == Some(n)
  {
    var id := MessageId(n);
    assert id[..4] == "msg-" && id[4..] == Decimal(n);
    DecimalRoundTrip(n);
  }

  /** Distinct counter values give distinct ids. */
  lemma MessageIdInjective(a: nat, b: nat)
    ensures MessageId(a) == MessageId(b) <==> a == b
  {
    MessageIdRoundTrip(a);
    MessageIdRoundTrip(b);
  }

  /** The counter value of an id, 0 for an id of another form. */
  function Serial(id: string): nat {
    IdSerial(id).GetOr(0)
  }

  /**
   * The history invariant: every id was made from a counter value between 1
   * and the current counter, and the values increase along the history.
   */
  predicate ValidHistory(history: seq<Message>, counter: nat) {
    && (forall i :: 0 <= i < |history| ==> 1 <= Serial(history[i].id) <= counter)
    && (forall i, j :: 0 <= i < j < |history| ==> Serial(history[i].id) < Serial(history[j].id))
  }

  /** Under the invariant no two messages share an id. */
  lemma ValidHistoryIdsDistinct(history: seq<Message>, counter: nat)
    requires ValidHistory(history, counter)
    ensures forall i, j :: 0 <= i < j < |history| ==> history[i].id != history[j].id
  {
  }

  /** A message made from the next counter value extends a valid history. */
  lemma ValidHistoryAppend(history: seq<Message>, counter: nat, m: Message)
    requires ValidHistory(history, counter) && m.id == MessageId(counter + 1)
    ensures ValidHistory(history + [m], counter + 1)
  {
    MessageIdRoundTrip(counter + 1);
    ValidHistorySnoc(history, counter + 1, m);
  }

  /** A message whose counter value is above all others in the history extends it. */
  lemma ValidHistorySnoc(history: seq<Message>, counter: nat, m: Message)
    requires forall i :: 0 <= i < |history| ==> 1 <= Serial(history[i].id) < Serial(m.id)
    requires forall i, j :: 0 <= i < j < |history| ==> Serial(history[i].id) < Serial(history[j].id)
    requires 1 <= Serial(m.id) <= counter
    ensures ValidHistory(history + [m], counter)
  {
    var h := history + [m];
    assert forall i :: 0 <= i < |history| ==> h[i] == history[i];
  }

  /** Every prefix of a valid history is valid. */
  lemma ValidHistoryPrefix(history: seq<Message>, counter: nat, n: nat)
    requires ValidHistory(history, counter) && n <= |history|
    ensures ValidHistory(history[..n], counter)
  {
    var p := history[..n];
    assert forall i :: 0 <= i < n ==> p[i] == history[i];
  }

  // ---------------------------------------------------------------------------
  // Removing messages by id
  // ---------------------------------------------------------------------------

  /** `history.filter(msg => msg.id !== messageId)`. */
  function WithoutId(history: seq<Message>, messageId: string): (r: seq<Message>)
    ensures |r| <= |history|
    decreases |history|
  {
    if |history| == 0 then []
    else
      var init := history[..|history| - 1];
      var last := history[|history| - 1];
      WithoutId(init, messageId) + (if last.id != messageId then [last] else [])
  }

  /** The filter keeps exactly the messages with another id. */
  lemma {:induction false} WithoutIdMembers(history: seq<Message>, messageId: string)
    ensures forall m :: m in WithoutId(history, messageId) <==> m in history && m.id != messageId
    decreases |history|
  {
    if |history| > 0 {
      var init := history[..|history| - 1];
      var last := history[|history| - 1];
      WithoutIdMembers(init, messageId);
      assert history == init + [last];
    }
  }

  /** A history without the id is left as it is. */
  lemma {:induction false} WithoutAbsentId(history: seq<Message>, messageId: string)
    requires forall i :: 0 <= i < |history| ==> history[i].id != messageId
    ensures WithoutId(history, messageId) == history
    decreases |history|
  {
    if |history| > 0 {
      WithoutAbsentId(history[..|history| - 1], messageId);
      assert history[..|history| - 1] + [history[|history| - 1]] == history;
    }
  }

  /**
   * In a valid history an id names at most one message, so filtering it out
   * removes exactly that message and keeps the others in order.
   */
  lemma {:induction false} WithoutIdRemovesOne(history: seq<Message>, counter: nat, k: nat)
    requires ValidHistory(history, counter) && k < |history|
    ensures WithoutId(history, history[k].id) == history[..k] + history[k + 1..]
    decreases |history|
  {
    var id := history[k].id;
    var n := |history|;
    var init := history[..n - 1];
    var last := history[n - 1];
    assert WithoutId(history, id) == WithoutId(init, id) + (if last.id != id then [last] else []);
    ValidHistoryPrefix(history, counter, n - 1);
    if k == n - 1 {
      forall i | 0 <= i < |init|
        ensures init[i].id != id
      {
        assert Serial(history[i].id) < Serial(history[k].id);
      }
      WithoutAbsentId(init, id);
      assert history[..k] + history[k + 1..] == init;
    } else {
      assert init[k] == history[k];
      WithoutIdRemovesOne(init, counter, k);
      assert last.id != id by {
        assert Serial(history[k].id) < Serial(history[n - 1].id);
      }
      assert init[..k] == history[..k];
      assert init[k + 1..] + [last] == history[k + 1..];
    }
  }

  /** Filtering keeps the history valid. */
  lemma {:induction false} WithoutIdKeepsValid(history: seq<Message>, counter: nat, messageId: string)
    requires ValidHistory(history, counter)
    ensures ValidHistory(WithoutId(history, messageId), counter)
    decreases |history|
  {
    if |history| > 0 {
      var n := |history|;
      var init := history[..n - 1];
      var last := history[n - 1];
      ValidHistoryPrefix(history, counter, n - 1);
      WithoutIdKeepsValid(init, counter, messageId);
      var kept := WithoutId(init, messageId);
      assert WithoutId(history, messageId) == kept + (if last.id != messageId then [last] else []);
      if last.id != messageId {
        forall i | 0 <= i < |kept|
          ensures 1 <= Serial(kept[i].id) < Serial(last.id)
        {
          WithoutIdMembers(init, messageId);
          assert kept[i] in init;
          var j :| 0 <= j < |init| && init[j] == kept[i];
          assert history[j] == init[j];
        }
        ValidHistorySnoc(kept, counter, last);
      }
    }
  }

  /** Removing the entry at `k` keeps the history valid. */
  lemma RemoveAtKeepsValid(history: seq<Message>, counter: nat, k: nat)
    requires ValidHistory(history, counter) && k < |history|
    ensures ValidHistory(history[..k] + history[k + 1..], counter)
  {
    WithoutIdRemovesOne(history, counter, k);
    WithoutIdKeepsValid(history, counter, history[k].id);
  }

  /** `history.findIndex(msg => msg.id === messageId)`: the first index with the id, or -1. */
  function FindIndex(history: seq<Message>, messageId: string): (r: int)
    ensures -1 <= r < |history|
    ensures r >= 0 ==> history[r].id == messageId && forall i :: 0 <= i < r ==> history[i].id != messageId
    ensures r == -1 ==> forall i :: 0 <= i < |history| ==> history[i].id != messageId
    decreases |history|
  {
    if |history| == 0 then -1
    else if history[0].id == messageId then 0
    else
      var r := FindIndex(history[1..], messageId);
      if r == -1 then -1 else r + 1
  }

  /** A response is shown as code, with code actions, exactly when its text mentions `class` or `import`. */
  function IsCodeResponse(text: string): (isCode: bool)
    ensures isCode <==> (exists i :: StartsAt(text, "class", i)) || (exists i :: StartsAt(text, "import", i))
  {
    ContainsIffStartsAt(text, "class");
    ContainsIffStartsAt(text, "import");
    text != [] && (Contains(text, "class") || Contains(text, "import"))
  }

  /** The class name `saveTestFile` offers: the first declared class, else `GeneratedTest`. */
  function TestClassName(code: string): (name: string)
    ensures name == DefaultClassName <==> JavaParser.ExtractClassName(code) == None || JavaParser.ExtractClassName(code) == Some(DefaultClassName)
    ensures name != []
    ensures JavaParser.ExtractClassName(code).Some? ==> name == JavaParser.ExtractClassName(code).value
    ensures JavaParser.ExtractClassName(code).None? ==> name == DefaultClassName
  {
    JavaParser.ExtractClassName(code).GetOr(DefaultClassName)
  }

  // ---------------------------------------------------------------------------
  // The webview
  // ---------------------------------------------------------------------------

  class ChatView {
    var isGenerating: bool
    var conversationHistory: seq<Message>
    var messageIdCounter: nat
    /** The text of the chat input box. */
    var chatInput: string
    /** Everything posted to the extension, oldest first. */
    var posted: seq<Posted>
    /** The last snapshot handed to `vscode.setState`. */
    var savedState: Option<Snapshot>

    predicate Valid()
      reads this
    {
      ValidHistory(conversationHistory, messageIdCounter)
    }

    /** Start-up: the fresh state, then `loadConversationHistory` from the host's saved snapshot if there is one. */
    constructor (state: Option<Snapshot>)
      ensures !isGenerating && chatInput == [] && posted == [] && savedState == None
      ensures state.None? ==> conversationHistory == [] && messageIdCounter == 0
      ensures state.Some? ==> conversationHistory == state.value.conversationHistory
                              && messageIdCounter == state.value.messageIdCounter
      ensures state.None? || ValidHistory(state.value.conversationHistory, state.value.messageIdCounter) ==> Valid()
    {
      isGenerating := false;
      conversationHistory := [];
      messageIdCounter := 0;
      chatInput := [];
      posted := [];
      savedState := None;
      if state.Some? {
        conversationHistory := state.value.conversationHistory;
        messageIdCounter := state.value.messageIdCounter;
      }
    }

    /** `setGenerating` (the button styling is left out). */
    method SetGenerating(generating: bool)
      modifies this`isGenerating
      ensures isGenerating == generating
    {
      isGenerating := generating;
    }

    /** `saveConversationHistory`. */
    method SaveConversationHistory()
      modifies this`savedState
      ensures savedState == Some(Snapshot(conversationHistory, messageIdCounter))
    {
      savedState := Some(Snapshot(conversationHistory, messageIdCounter));
    }

    /** `addMessage`: pre-increments the counter and builds the message; it does not add it to the history. */
    method AddMessage(role: Role, content: string, msgType: MessageType, hasCodeActions: bool, now: int)
      returns (message: Message)
      modifies this`messageIdCounter
      ensures messageIdCounter == old(messageIdCounter) + 1
      ensures message == Message(MessageId(messageIdCounter), role, content, now, msgType, hasCodeActions)
      ensures IdSerial(message.id) == Some(messageIdCounter)
    {
      messageIdCounter := messageIdCounter + 1;
      message := Message(MessageId(messageIdCounter), role, content, now, msgType, hasCodeActions);
      MessageIdRoundTrip(messageIdCounter);
    }

    /**
     * `sendMessage`: refused while generating; otherwise appends one user
     * message, clears the input, posts the request with the whole history,
     * and starts generating.
     */
    method SendMessage(content: string, msgType: MessageType, now: int)
      modifies this`messageIdCounter, this`conversationHistory, this`chatInput, this`posted, this`isGenerating
      ensures old(isGenerating) ==> unchanged(this)
      ensures !old(isGenerating) ==>
                && messageIdCounter == old(messageIdCounter) + 1
                && conversationHistory
                   == old(conversationHistory) + [Message(MessageId(messageIdCounter), User, content, now, msgType, false)]
                && chatInput == []
                && posted == old(posted) + [ChatRequest(content, msgType, conversationHistory)]
                && isGenerating
      ensures old(Valid()) ==> Valid()
    {
      if isGenerating {
        return;
      }
      var userMessage := AddMessage(User, content, msgType, false, now);
      if old(Valid()) {
        ValidHistoryAppend(conversationHistory, messageIdCounter - 1, userMessage);
      }
      conversationHistory := conversationHistory + [userMessage];
      chatInput := [];
      posted := posted + [ChatRequest(content, msgType, conversationHistory)];
      SetGenerating(true);
    }

    /** `handleSendMessage`: sends the trimmed input unless it is blank or a reply is pending. */
    method HandleSendMessage(now: int)
      modifies this`messageIdCounter, this`conversationHistory, this`chatInput, this`posted, this`isGenerating
      ensures AllSpace(old(chatInput)) || old(isGenerating) ==> unchanged(this)
      ensures !AllSpace(old(chatInput)) && !old(isGenerating) ==>
                && messageIdCounter == old(messageIdCounter) + 1
                && conversationHistory
                   == old(conversationHistory) + [Message(MessageId(messageIdCounter), User, Trim(old(chatInput)), now, Text, false)]
                && chatInput == []
                && posted == old(posted) + [ChatRequest(Trim(old(chatInput)), Text, conversationHistory)]
                && isGenerating
      ensures old(Valid()) ==> Valid()
    {
      var message := Trim(chatInput);
      TrimBlank(chatInput);
      if message == [] || isGenerating {
        return;
      }
      SendMessage(message, Text, now);
    }

    /**
     * The `response` event: appends one assistant message, typed code and
     * given code actions when the text mentions `class` or `import`, stops
     * generating and saves.
     */
    method OnResponse(text: string, now: int)
      modifies this`messageIdCounter, this`conversationHistory, this`isGenerating, this`savedState
      ensures messageIdCounter == old(messageIdCounter) + 1
      ensures var isCode := IsCodeResponse(text);
              conversationHistory == old(conversationHistory)
                + [Message(MessageId(messageIdCounter), Assistant, text, now, if isCode then Code else Text, isCode)]
      ensures !isGenerating
      ensures savedState == Some(Snapshot(conversationHistory, messageIdCounter))
      ensures old(Valid()) ==> Valid()
    {
      var isCode := IsCodeResponse(text);
      var assistantMessage := AddMessage(Assistant, text, if isCode then Code else Text, isCode, now);
      if old(Valid()) {
        ValidHistoryAppend(conversationHistory, messageIdCounter - 1, assistantMessage);
      }
      conversationHistory := conversationHistory + [assistantMessage];
      SetGenerating(false);
      SaveConversationHistory();
    }

    /** The `error` event: appends one assistant text message with the error prefix, stops generating and saves. */
    method OnError(text: string, now: int)
      modifies this`messageIdCounter, this`conversationHistory, this`isGenerating, this`savedState
      ensures messageIdCounter == old(messageIdCounter) + 1
      ensures conversationHistory == old(conversationHistory)
                + [Message(MessageId(messageIdCounter), Assistant, ErrorPrefix + text, now, Text, false)]
      ensures !isGenerating
      ensures savedState == Some(Snapshot(conversationHistory, messageIdCounter))
      ensures old(Valid()) ==> Valid()
    {
      var errorMessage := AddMessage(Assistant, ErrorPrefix + text, Text, false, now);
      if old(Valid()) {
        ValidHistoryAppend(conversationHistory, messageIdCounter - 1, errorMessage);
      }
      conversationHistory := conversationHistory + [errorMessage];
      SetGenerating(false);
      SaveConversationHistory();
    }

    /** `handleClearChat`: refused while generating; otherwise empties the history, resets the counter and saves. */
    method HandleClearChat()
      modifies this`conversationHistory, this`messageIdCounter, this`savedState
      ensures old(isGenerating) ==> unchanged(this)
      ensures !old(isGenerating) ==>
                conversationHistory == [] && messageIdCounter == 0 && savedState == Some(Snapshot([], 0))
      ensures Valid()  || old(isGenerating)
      ensures old(Valid()) ==> Valid()
    {
      if isGenerating {
        return;
      }
      conversationHistory := [];
      messageIdCounter := 0;
      SaveConversationHistory();
    }

    /** `deleteMessage`: drops every entry with the id, keeping the others in order, and saves. */
    method DeleteMessage(messageId: string)
      modifies this`conversationHistory, this`savedState
      ensures conversationHistory == WithoutId(old(conversationHistory), messageId)
      ensures savedState == Some(Snapshot(conversationHistory, messageIdCounter))
      ensures old(Valid()) ==> Valid()
    {
      if Valid() {
        WithoutIdKeepsValid(conversationHistory, messageIdCounter, messageId);
      }
      conversationHistory := WithoutId(conversationHistory, messageId);
      SaveConversationHistory();
    }

    /**
     * `regenerateResponse`: when the message is found after a user message,
     * removes it and sends that user message's content again. The removal
     * happens even when the resend is then refused because a reply is pending.
     */
    method RegenerateResponse(messageId: string, now: int)
      modifies this`messageIdCounter, this`conversationHistory, this`chatInput, this`posted, this`isGenerating
      ensures var idx := FindIndex(old(conversationHistory), messageId);
              !(idx > 0 && old(conversationHistory)[idx - 1].role == User) ==> unchanged(this)
      ensures var idx := FindIndex(old(conversationHistory), messageId);
              var h := old(conversationHistory);
              idx > 0 && h[idx - 1].role == User ==>
                if old(isGenerating) then
                  && conversationHistory == h[..idx] + h[idx + 1..]
                  && unchanged(this`messageIdCounter, this`posted, this`chatInput, this`isGenerating)
                else
                  && messageIdCounter == old(messageIdCounter) + 1
                  && conversationHistory
                     == h[..idx] + h[idx + 1..]
                        + [Message(MessageId(messageIdCounter), User, h[idx - 1].content, now, h[idx - 1].msgType, false)]
                  && posted == old(posted) + [ChatRequest(h[idx - 1].content, h[idx - 1].msgType, conversationHistory)]
                  && chatInput == []
                  && isGenerating
      ensures old(Valid()) ==> Valid()
    {
      var messageIndex := FindIndex(conversationHistory, messageId);
      if messageIndex > 0 {
        var userMessage := conversationHistory[messageIndex - 1];
        if userMessage.role == User {
          if Valid() {
            RemoveAtKeepsValid(conversationHistory, messageIdCounter, messageIndex);
          }
          conversationHistory := conversationHistory[..messageIndex] + conversationHistory[messageIndex + 1..];
          SendMessage(userMessage.content, userMessage.msgType, now);
        }
      }
    }

    /** `saveTestFile`: posts the code with the class name to save it under. */
    method SaveTestFile(code: string)
      modifies this`posted
      ensures posted == old(posted) + [SaveTests(code, TestClassName(code))]
    {
      var className := JavaParser.ExtractClassName(code).GetOr(DefaultClassName);
      posted := posted + [SaveTests(code, className)];
    }
  }

  /** A deleted message is gone, and in a valid history it is the only one that goes. */
  lemma DeleteRemovesExactlyOne(history: seq<Message>, counter: nat, k: nat)
    requires ValidHistory(history, counter) && k < |history|
    ensures WithoutId(history, history[k].id) == history[..k] + history[k + 1..]
    ensures forall m :: m in WithoutId(history, history[k].id) ==> m.id != history[k].id
  {
    WithoutIdRemovesOne(history, counter, k);
  }
}
