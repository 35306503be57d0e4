/** The study assistant's chat panel: the transcript, the input box, and one exchange
    with the remote model, whose streamed reply is given as a sequence of chunks and
    the point, if any, at which the stream fails. */
module Chat {
  import opened Types
  import Text

  datatype Role = User | Model

  datatype Message = Message(role: Role, text: string)

  /** Where the remote reply fails: not at all, when the request is sent, or after the
      given number of chunks has arrived. */
  datatype StreamFailure = NoFailure | AtSend | AfterChunks(count: nat)

  datatype Reply = Reply(chunks: seq<string>, failure: StreamFailure)

  const ReplyError := "Sorry, I couldn't get a response. Please try again."
  const InitError := "Could not initialize the AI assistant. Please check your API key."

  /** The greeting that opens the transcript of a module. */
  function Greeting(title: string): (g: string)
    ensures |g| == |title| + 73 && Text.OccursAt(g, title, 38)
    ensures g[..37] == "Hello! I'm your AI assistant for the " && g[37] == '"' && g[38 + |title|] == '"'
  {
    "Hello! I'm your AI assistant for the \"" + title + "\" module. How can I help you study?"
  }

  /** The chunks that arrive before the stream ends or fails. */
  function Delivered(r: Reply): (d: seq<string>)
    ensures d <= r.chunks
    ensures r.failure == NoFailure ==> d == r.chunks
    ensures r.failure == AtSend ==> d == []
    ensures r.failure.AfterChunks? ==> |d| == if r.failure.count < |r.chunks| then r.failure.count else |r.chunks|
  {
    match r.failure
    case NoFailure => r.chunks
    case AtSend => []
    case AfterChunks(k) => if k < |r.chunks| then r.chunks[..k] else r.chunks
  }

  /** The chunks run together, in order: `modelResponse += chunk.text` over the stream. */
  function Concat(parts: seq<string>): string {
    if parts == [] then [] else Concat(parts[..|parts| - 1]) + parts[|parts| - 1]
  }

  /** Running together two runs of chunks is running together each. */
  lemma {:induction false} ConcatAppend(a: seq<string>, b: seq<string>)
    ensures Concat(a + b) == Concat(a) + Concat(b)
    decreases |b|
  {
    if b == [] {
      assert a + b == a;
    } else {
      var b' := b[..|b| - 1];
      ConcatAppend(a, b');
      assert (a + b)[..|a + b| - 1] == a + b';
    }
  }

  /** While the reply streams in, the model's turn only grows: what is shown after `k`
      chunks is the start of what is shown at the end. */
  lemma StreamingOnlyExtends(chunks: seq<string>, k: nat)
    requires k <= |chunks|
    ensures Concat(chunks[..k]) <= Concat(chunks)
  {
    assert chunks == chunks[..k] + chunks[k..];
    ConcatAppend(chunks[..k], chunks[k..]);
  }

  /** `!input.trim()`: the input is empty once surrounding whitespace is removed. */
  predicate IsBlank(s: string) {
    forall i :: 0 <= i < |s| ==> Text.IsJsWhitespace(s[i])
  }

  /** `slice(0, -1)`: everything but the last message. */
  function DropLast(msgs: seq<Message>): (r: seq<Message>)
    ensures msgs != [] ==> r + [msgs[|msgs| - 1]] == msgs
    ensures msgs == [] ==> r == []
  {
    if msgs == [] then [] else msgs[..|msgs| - 1]
  }

  /** The transcript while the reply streams in: the user's turn, then the model's turn
      holding the first `k` chunks. */
  function Streaming(msgs: seq<Message>, userText: string, chunks: seq<string>, k: nat): (r: seq<Message>)
    requires k <= |chunks|
    ensures |r| == |msgs| + 2 && r[..|msgs|] == msgs
    ensures r[|msgs|] == Message(User, userText) && r[|msgs| + 1] == Message(Model, Concat(chunks[..k]))
  {
    msgs + [Message(User, userText), Message(Model, Concat(chunks[..k]))]
  }

  /** The transcript after one exchange that passed the guard, step by step as the
      handler builds it: the user's turn is appended; unless the request fails, the
      model's turn is appended and filled from the chunks that arrive; a failure then
      drops the last message. Whatever happens, the earlier transcript is kept; a failure
      when the request is sent loses the user's own turn, a failure later loses the
      partial reply but keeps the user's turn. */
  function AfterExchange(msgs: seq<Message>, userText: string, reply: Reply): (r: seq<Message>)
    ensures msgs <= r
    ensures reply.failure == NoFailure ==>
      r == msgs + [Message(User, userText), Message(Model, Concat(reply.chunks))]
    ensures reply.failure == AtSend ==> r == msgs
    ensures reply.failure.AfterChunks? ==> r == msgs + [Message(User, userText)]
  {
    var withUser := msgs + [Message(User, userText)];
    if reply.failure == AtSend then DropLast(withUser)
    else
      var delivered := Delivered(reply);
      var streamed := Streaming(msgs, userText, delivered, |delivered|);
      assert delivered[..|delivered|] == delivered;
      assert streamed == withUser + [Message(Model, Concat(delivered))];
      if reply.failure == NoFailure then streamed else DropLast(streamed)
  }

  class ChatPanel {
    var messages: seq<Message>
    var input: string
    var isLoading: bool
    var error: Option<string>
    /** Whether a chat session has been created (`chatRef.current` is set). */
    var hasSession: bool

    constructor()
      ensures messages == [] && input == [] && !isLoading && error.None? && !hasSession
    {
      messages := [];
      input := [];
      isLoading := false;
      error := None;
      hasSession := false;
    }

    /** The effect that runs when the module changes. `initFails` stands for the client
        library throwing while the session is created. */
    method InitSession(data: Option<SyllabusModule>, initFails: bool)
      modifies this
      ensures input == old(input) && isLoading == old(isLoading)
      ensures data.None? || data.value.moduleTitle == [] ==>
        messages == old(messages) && error == old(error) && hasSession == old(hasSession)
      ensures data.Some? && data.value.moduleTitle != [] && !initFails ==>
        messages == [Message(Model, Greeting(data.value.moduleTitle))] && error.None? && hasSession
      ensures data.Some? && data.value.moduleTitle != [] && initFails ==>
        messages == [] && error == Some(InitError) && hasSession == old(hasSession)
    {
      if data.None? || data.value.moduleTitle == [] {
        return;
      }
      if initFails {
        error := Some(InitError);
        messages := [];
      } else {
        hasSession := true;
        messages := [Message(Model, Greeting(data.value.moduleTitle))];
        error := None;
      }
    }

    /** Typing in the input box. */
    method SetInput(text: string)
      modifies this`input
      ensures input == text
    {
      input := text;
    }

    /** `handleSendMessage` as one exchange: nothing happens for a blank input, while
        another exchange is in flight, or without a session; otherwise the user's turn is
        appended, the model's turn grows chunk by chunk, and a failure drops the last
        message and sets the error. */
    method HandleSendMessage(reply: Reply)
      modifies this
      ensures hasSession == old(hasSession)
      ensures IsBlank(old(input)) || old(isLoading) || !old(hasSession) ==>
        && messages == old(messages) && input == old(input)
        && isLoading == old(isLoading) && error == old(error)
      ensures !(IsBlank(old(input)) || old(isLoading) || !old(hasSession)) ==>
        && messages == AfterExchange(old(messages), old(input), reply)
        && input == [] && !isLoading
        && error == (if reply.failure == NoFailure then None else Some(ReplyError))
    {
      if IsBlank(input) || isLoading || !hasSession {
        return;
      }
      var userText := input;
      messages := messages + [Message(User, userText)];
      input := [];
      isLoading := true;
      error := None;
      if reply.failure == AtSend {
        error := Some(ReplyError);
        messages := DropLast(messages);
      } else {
        var before := old(messages);
        var delivered := Delivered(reply);
        var modelResponse := [];
        messages := messages + [Message(Model, [])];
        var i := 0;
        while i < |delivered|
          invariant i <= |delivered|
          invariant modelResponse == Concat(delivered[..i])
          invariant messages == Streaming(before, userText, delivered, i)
          invariant input == [] && isLoading && error.None? && hasSession == old(hasSession)
        {
          modelResponse := modelResponse + delivered[i];
          assert delivered[..i + 1][..i] == delivered[..i];
          messages := messages[|messages| - 1 := Message(Model, modelResponse)];
          i := i + 1;
        }
        assert delivered[..i] == delivered;
        if reply.failure != NoFailure {
          error := Some(ReplyError);
          messages := DropLast(messages);
        }
      }
      isLoading := false;
    }
  }
}
