/** The chat page's own logic: its line-break rewrite, the guard and the
    history window of a submission, and the state it keeps — the transcript,
    the input, the selected image, the loading flag, the error text — together
    with the effects that save the transcript to, load it from and clear it
    from localStorage. Rendering, scrolling and the network call are not part
    of it; the reply of a request is an input. */
module ChatPage {
  import opened Wrappers
  import opened JsBuiltins
  import opened ChatStorage

  // ---------------------------------------------------------------- markdownToHtml

  /** `content.replace(/\n/g, '<br />')`. */
  function MarkdownToHtml(content: string): (html: string)
    ensures '\n' !in html
  {
    if |content| == 0 then ""
    else
      (if content[0] == '\n' then "<br />" else [content[0]]) + MarkdownToHtml(content[1..])
  }

  /** Each line break grows the text by the five extra characters of `<br />`; nothing else changes length. */
  lemma {:induction false} MarkdownToHtmlLength(content: string)
    ensures |MarkdownToHtml(content)| == |content| + 5 * multiset(content)['\n']
  {
    if |content| > 0 {
      var tail := content[1..];
      MarkdownToHtmlLength(tail);
      assert content == [content[0]] + tail;
      assert multiset(content) == multiset([content[0]]) + multiset(tail);
    }
  }

  /** The rewrite works piecewise: rewriting a concatenation concatenates the rewrites. */
  lemma {:induction false} MarkdownToHtmlAppend(a: string, b: string)
    ensures MarkdownToHtml(a + b) == MarkdownToHtml(a) + MarkdownToHtml(b)
  {
    if |a| == 0 {
      assert a + b == b;
    } else {
      assert (a + b)[0] == a[0] && (a + b)[1..] == a[1..] + b;
      MarkdownToHtmlAppend(a[1..], b);
    }
  }

  /** Text without line breaks is left exactly as it is. */
  lemma {:induction false} MarkdownToHtmlKeepsOtherText(content: string)
    requires '\n' !in content
    ensures MarkdownToHtml(content) == content
  {
    if |content| > 0 {
      MarkdownToHtmlKeepsOtherText(content[1..]);
      assert content == [content[0]] + content[1..];
    }
  }

  /** Rewriting twice is rewriting once: the output holds no line break left to rewrite. */
  lemma MarkdownToHtmlIdempotent(content: string)
    ensures MarkdownToHtml(MarkdownToHtml(content)) == MarkdownToHtml(content)
  {
    MarkdownToHtmlKeepsOtherText(MarkdownToHtml(content));
  }

  /** The inverse rewrite: every `<br />` back into a line break. */
  function BreaksToNewlines(html: string): string {
    if |html| == 0 then ""
    else if |html| >= 6 && html[..6] == "<br />" then "\n" + BreaksToNewlines(html[6..])
    else [html[0]] + BreaksToNewlines(html[1..])
  }

  /** On text without `<`, the rewrite loses nothing: turning the breaks back gives the text. */
  lemma BreakPrefix(rest: string)
    ensures BreaksToNewlines("<br />" + rest) == "\n" + BreaksToNewlines(rest)
  {
    var html := "<br />" + rest;
    assert html[..6] == "<br />";
    assert html[6..] == rest;
  }

  lemma OtherPrefix(c: char, rest: string)
    requires c != '<'
    ensures BreaksToNewlines([c] + rest) == [c] + BreaksToNewlines(rest)
  {
    var html := [c] + rest;
    assert html[1..] == rest;
    assert html[0] == c;
  }

  lemma {:induction false} BreaksToNewlinesUndoesRewrite(content: string)
    requires '<' !in content
    ensures BreaksToNewlines(MarkdownToHtml(content)) == content
  {
    if |content| > 0 {
      var tail := content[1..];
      var rest := MarkdownToHtml(tail);
      BreaksToNewlinesUndoesRewrite(tail);
      if content[0] == '\n' {
        assert MarkdownToHtml(content) == "<br />" + rest;
        BreakPrefix(rest);
      } else {
        assert MarkdownToHtml(content) == [content[0]] + rest;
        OtherPrefix(content[0], rest);
      }
      assert content == [content[0]] + tail;
    }
  }

  // ---------------------------------------------------------------- submission

  /** The guard of handleSubmit: it goes ahead unless a request is in flight, or
      the input is blank after trimming and no image is selected. */
  function CanSubmit(inputText: string, imageSelected: bool, isLoading: bool): bool
  {
    !((Trim(inputText) == "" && !imageSelected) || isLoading)
  }

  /** The guard in terms of the input itself: some character that is not white space. */
  lemma CanSubmitIff(inputText: string, imageSelected: bool, isLoading: bool)
    ensures CanSubmit(inputText, imageSelected, isLoading) <==>
      !isLoading && (imageSelected || exists i :: 0 <= i < |inputText| && !IsWhitespace(inputText[i]))
  {
    TrimEmptyIff(inputText);
  }

  /** A history entry sent with a request: the role and the text only. */
  datatype ChatTurn = ChatTurn(role: Role, content: string)

  /** `messages.slice(-5).map(m => ({ role, content }))`: the last five
      messages, or all of them when there are fewer, in order, stripped to
      role and text. */
  function RecentHistory(messages: seq<Message>): seq<ChatTurn>
  {
    var recent := Slice(messages, -5, |messages|);
    seq(|recent|, i requires 0 <= i < |recent| => ChatTurn(recent[i].role, recent[i].content))
  }

  /** The history holds `min(5, n)` entries: the last messages, in order. */
  lemma RecentHistoryIsLastFive(messages: seq<Message>)
    ensures |RecentHistory(messages)| == if |messages| < 5 then |messages| else 5
    ensures forall i :: 0 <= i < |RecentHistory(messages)| ==>
      var m := messages[|messages| - |RecentHistory(messages)| + i];
      RecentHistory(messages)[i] == ChatTurn(m.role, m.content)
  {
  }

  /** The JSON body posted to the chat endpoint. */
  datatype ChatRequest = ChatRequest(message: string, image: Option<string>, chatHistory: seq<ChatTurn>)

  /** The message appended for the user: the image is attached only when the preview is a non-empty data URL. */
  function UserMessage(text: string, preview: Option<string>, now: int): Message
  {
    Message(User, text, if preview.Some? && preview.value != "" then preview else None, Some(now))
  }

  /** The user's message carries the input, the time, and the preview exactly when it is non-empty. */
  lemma UserMessageAttachesPreview(text: string, preview: Option<string>, now: int)
    ensures var m := UserMessage(text, preview, now);
      && m.role == User && m.content == text && m.timestamp == Some(now)
      && (m.image.Some? <==> preview.Some? && preview.value != "")
      && (m.image.Some? ==> m.image == preview)
  {
  }

  const DefaultError := "Failed to get response"

  // ---------------------------------------------------------------- the page's state

  class ChatPage {
    const store: Store
    var messages: seq<Message>
    var inputText: string
    var isLoading: bool
    var error: string
    /** The name of the selected image file, if any. */
    var selectedImage: Option<string>
    /** The selected image as a data URL, once it has been read. */
    var imagePreview: Option<string>

    /** The page's initial state; the transcript starts from the `chatMessages`
        value, which must parse as a list (otherwise the initializer throws). */
    constructor (store: Store)
      requires InitialMessages(store.items).Some?
      ensures this.store == store
      ensures messages == InitialMessages(store.items).value
      ensures inputText == "" && !isLoading && error == ""
      ensures selectedImage == None && imagePreview == None
    {
      this.store := store;
      messages := InitialMessages(store.items).value;
      inputText := "";
      isLoading := false;
      error := "";
      selectedImage := None;
      imagePreview := None;
    }

    /** The save effect: the whole list under `chatMessages`, or, when that
        write exceeds the quota, the list in chunks with their count. */
    method SaveMessages(quotaExceeded: bool)
      modifies store
      ensures store.items ==
        if quotaExceeded then ChunkedSave(old(store.items), messages)
        else old(store.items)[MainKey := Serialized(messages)]
    {
      if !quotaExceeded {
        store.SetItem(MainKey, Serialized(messages));
      } else {
        ghost var stored := store.items;
        var chunks := SplitIntoChunks(messages);
        for index := 0 to |chunks|
          invariant store.items == WriteChunks(stored, chunks[..index])
        {
          WriteNextChunk(stored, chunks, index);
          store.SetItem(ChunkKey(index), Serialized(chunks[index]));
        }
        assert chunks[..|chunks|] == chunks;
        store.SetItem(CountKey, Raw(NatToString(|chunks|)));
      }
    }

    /** The loop that collects the chunks of the quota fallback. */
    static method SplitIntoChunks(list: seq<Message>) returns (chunks: seq<seq<Message>>)
      ensures chunks == Chunks(list, ChunkSize(|list|))
    {
      var chunkSize := ChunkSize(|list|);
      chunks := [];
      var i: nat := 0;
      while i < |list|
        invariant chunks + ChunksFrom(list, chunkSize, i) == ChunksFrom(list, chunkSize, 0)
        decreases |list| - i
      {
        ChunksFromStep(list, chunkSize, i, chunks);
        chunks := chunks + [Slice(list, i, i + chunkSize)];
        i := i + chunkSize;
      }
      ChunksFromIsChunks(list, chunkSize, 0);
      assert list[0..] == list;
    }

    /** The load effect's reading of the chunks: the reassembled list, or
        `None` when there is no count or a chunk fails to parse. */
    method ReadChunkedMessages() returns (loaded: Option<seq<Message>>)
      ensures loaded == LoadedChunks(store.items)
    {
      var chunksCount := store.GetItem(CountKey);
      var count := ChunkCount(chunksCount);
      if count.None? {
        return None;
      }
      var allMessages: seq<Message> := [];
      for i := 0 to count.value
        invariant LoadChunks(store.items, i) == Some(allMessages)
      {
        var chunk := store.GetItem(ChunkKey(i));
        match chunk {
          case None =>
          case Some(Raw(text)) =>
            if text != "" {
              LoadChunksStaysAbandoned(store.items, i + 1, count.value);
              return None;
            }
          case Some(Serialized(part)) =>
            allMessages := allMessages + part;
        }
      }
      return Some(allMessages);
    }

    /** The load effect: the reassembled list replaces the transcript when
        there is one; otherwise nothing changes. */
    method LoadChunkedMessages()
      modifies this
      ensures messages == if LoadedChunks(store.items).Some? then LoadedChunks(store.items).value else old(messages)
      ensures inputText == old(inputText) && isLoading == old(isLoading) && error == old(error)
      ensures selectedImage == old(selectedImage) && imagePreview == old(imagePreview)
    {
      var loaded := ReadChunkedMessages();
      if loaded.Some? {
        messages := loaded.value;
      }
    }

    /** clearHistory: an empty transcript, and the store without its chunk
        keys, its primary key and its count key. */
    method ClearHistory()
      modifies this, store
      ensures messages == []
      ensures store.items == Cleared(old(store.items))
      ensures inputText == old(inputText) && isLoading == old(isLoading) && error == old(error)
      ensures selectedImage == old(selectedImage) && imagePreview == old(imagePreview)
    {
      messages := [];
      ghost var stored := store.items;
      var chunksCount := store.GetItem(CountKey);
      var count := ChunkCount(chunksCount);
      if count.Some? {
        for i := 0 to count.value
          modifies store
          invariant store.items == stored - ChunkKeys(i)
        {
          store.RemoveItem(ChunkKey(i));
          RemoveNextChunkKey(stored, i);
        }
      } else {
        assert ChunkKeys(0) == {};
      }
      ChunkBoundOfCount(stored, count);
      ghost var chunkless := store.items;
      store.RemoveItem(MainKey);
      store.RemoveItem(CountKey);
      ClearedByRemovals(stored, chunkless, store.items);
    }

    /** handleSubmit up to the request: when the guard lets it through, the
        user's message is appended, the input and the image are cleared, the
        page starts loading, and the request carries the input, the preview and
        the history of the transcript as it was before the append. */
    method Submit(now: int) returns (request: Option<ChatRequest>)
      modifies this
      ensures !CanSubmit(old(inputText), old(selectedImage).Some?, old(isLoading)) ==>
        request == None && unchanged(this)
      ensures CanSubmit(old(inputText), old(selectedImage).Some?, old(isLoading)) ==>
        && request == Some(ChatRequest(old(inputText), old(imagePreview), RecentHistory(old(messages))))
        && messages == old(messages) + [UserMessage(old(inputText), old(imagePreview), now)]
        && inputText == "" && isLoading && error == ""
        && selectedImage == None && imagePreview == None
    {
      if !CanSubmit(inputText, selectedImage.Some?, isLoading) {
        return None;
      }
      request := Some(ChatRequest(inputText, imagePreview, RecentHistory(messages)));
      messages := messages + [UserMessage(inputText, imagePreview, now)];
      inputText, isLoading, error, selectedImage, imagePreview := "", true, "", None, None;
    }

    /** The end of handleSubmit: the reply is appended as the assistant's
        message, or the error text is shown; loading stops either way. */
    method ReceiveReply(reply: Result<string, string>, now: int)
      modifies this
      ensures !isLoading
      ensures reply.Success? ==> messages == old(messages) + [Message(Assistant, reply.value, None, Some(now))] && error == old(error)
      ensures reply.Failure? ==> messages == old(messages) && error == (if reply.error == "" then DefaultError else reply.error)
      ensures inputText == old(inputText) && selectedImage == old(selectedImage) && imagePreview == old(imagePreview)
    {
      match reply {
        case Success(text) =>
          messages := messages + [Message(Assistant, text, None, Some(now))];
        case Failure(e) =>
          error := if e == "" then DefaultError else e;
      }
      isLoading := false;
    }
  }
}
