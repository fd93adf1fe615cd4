/** How the chat page keeps its transcript in the browser's localStorage: the
    whole list under `chatMessages`, or, when that write exceeds the quota,
    consecutive chunks under `chatMessages_0`, `chatMessages_1`, ... with their
    number under `chatMessages_chunks`. JSON is abstracted: a stored value is
    either the serialization of a message list or some other text. */
module ChatStorage {
  import opened Wrappers
  import opened JsBuiltins

  datatype Role = User | Assistant

  /** A transcript entry: who wrote it, its text, an optional image (a data
      URL) and an optional time stamp in milliseconds. */
  datatype Message = Message(role: Role, content: string, image: Option<string>, timestamp: Option<int>)

  /** A value held by localStorage: `Serialized(ms)` is the JSON text of the
      list `ms`; `Raw(text)` is any text that is not such a serialization. */
  datatype Entry = Serialized(messages: seq<Message>) | Raw(text: string)

  const MainKey := "chatMessages"
  const CountKey := "chatMessages_chunks"

  /** The key of chunk `index`: the template `chatMessages_${index}`. */
  function ChunkKey(index: nat): (key: string)
    ensures key != MainKey && key != CountKey
  {
    var digits := NatToString(index);
    assert ("chatMessages_" + digits)[13] == digits[0];
    "chatMessages_" + digits
  }

  lemma ChunkKeyInjective(i: nat, j: nat)
    requires ChunkKey(i) == ChunkKey(j)
    ensures i == j
  {
    assert NatToString(i) == ChunkKey(i)[13..];
    assert NatToString(j) == ChunkKey(j)[13..];
    NatToStringInjective(i, j);
  }

  /** The keys of chunks 0 to count - 1. */
  function ChunkKeys(count: nat): set<string> {
    set j | 0 <= j < count :: ChunkKey(j)
  }

  /** Removing chunk key `i` after chunk keys 0 to i - 1 removes chunk keys 0 to i. */
  lemma RemoveNextChunkKey(items: map<string, Entry>, i: nat)
    ensures items - ChunkKeys(i) - {ChunkKey(i)} == items - ChunkKeys(i + 1)
  {
    assert ChunkKeys(i + 1) == ChunkKeys(i) + {ChunkKey(i)};
  }

  function Lookup(items: map<string, Entry>, key: string): Option<Entry> {
    if key in items then Some(items[key]) else None
  }

  /** The browser's localStorage for the page's origin. */
  class Store {
    var items: map<string, Entry>

    constructor (initial: map<string, Entry>)
      ensures items == initial
    {
      items := initial;
    }

    /** `localStorage.getItem(key)`; `None` stands for `null`. */
    function GetItem(key: string): Option<Entry>
      reads this
    {
      Lookup(items, key)
    }

    /** `localStorage.setItem(key, value)`. */
    method SetItem(key: string, value: Entry)
      modifies this
      ensures items == old(items)[key := value]
    {
      items := items[key := value];
    }

    /** `localStorage.removeItem(key)`. */
    method RemoveItem(key: string)
      modifies this
      ensures items == old(items) - {key}
    {
      items := items - {key};
    }
  }

  // ---------------------------------------------------------------- splitting into chunks

  /** `Math.floor(n / 2)`, the step of the chunking loop as the page writes it. */
  function SourceChunkSize(n: nat): nat {
    n / 2
  }

  /** The chunking loop's index after `rounds` rounds, with the step as written. */
  function SourceLoopIndex(n: nat, rounds: nat): nat {
    if rounds == 0 then 0 else SourceLoopIndex(n, rounds - 1) + SourceChunkSize(n)
  }

  /** With one message the step is 0, so after any number of rounds the index
      is still 0 and the guard `i < 1` still holds: the loop never exits. */
  lemma {:induction false} SourceLoopNeverExitsOnOneMessage(rounds: nat)
    ensures SourceChunkSize(1) == 0
    ensures SourceLoopIndex(1, rounds) == 0 < 1
  {
    if rounds > 0 {
      SourceLoopNeverExitsOnOneMessage(rounds - 1);
    }
  }

  /** The chunks the loop as written has pushed after `rounds` rounds, each
      `messages.slice(i, i + Math.floor(n / 2))` at the index of its round;
      the guard `i < n` is left to the caller. */
  function SourceLoopChunks(messages: seq<Message>, rounds: nat): seq<seq<Message>> {
    if rounds == 0 then []
    else
      var i := SourceLoopIndex(|messages|, rounds - 1);
      SourceLoopChunks(messages, rounds - 1) + [Slice(messages, i, i + SourceChunkSize(|messages|))]
  }

  /** With one message, every round of the loop as written pushes an empty
      slice: after `rounds` rounds it holds `rounds` empty chunks and its guard
      still holds, so it only grows. */
  lemma {:induction false} SourceLoopPushesEmptySlices(messages: seq<Message>, rounds: nat)
    requires |messages| == 1
    ensures SourceLoopIndex(|messages|, rounds) < |messages|
    ensures |SourceLoopChunks(messages, rounds)| == rounds
    ensures forall k :: 0 <= k < rounds ==> SourceLoopChunks(messages, rounds)[k] == []
  {
    SourceLoopNeverExitsOnOneMessage(rounds);
    if rounds > 0 {
      SourceLoopPushesEmptySlices(messages, rounds - 1);
      SourceLoopNeverExitsOnOneMessage(rounds - 1);
      assert Slice(messages, 0, 0) == [];
    }
  }

  /** The chunk size with the one-message case corrected: never 0, and the
      step as written for every list of two or more messages. */
  function ChunkSize(n: nat): (size: nat)
    ensures size >= 1
    ensures n >= 2 ==> size == SourceChunkSize(n)
  {
    if n / 2 == 0 then 1 else n / 2
  }

  function Flatten<T>(chunks: seq<seq<T>>): seq<T> {
    if |chunks| == 0 then [] else chunks[0] + Flatten(chunks[1..])
  }

  lemma {:induction false} FlattenSnoc<T>(chunks: seq<seq<T>>, last: seq<T>)
    ensures Flatten(chunks + [last]) == Flatten(chunks) + last
  {
    if |chunks| == 0 {
      assert chunks + [last] == [last];
    } else {
      assert (chunks + [last])[1..] == chunks[1..] + [last];
      FlattenSnoc(chunks[1..], last);
    }
  }

  /** The slices `messages.slice(i, i + size)` for i = 0, size, 2 * size, ...:
      they concatenate to the list, none is empty, and all but the last hold
      exactly `size` messages. */
  function Chunks(messages: seq<Message>, size: nat): (chunks: seq<seq<Message>>)
    requires size >= 1
    ensures Flatten(chunks) == messages
    ensures forall i :: 0 <= i < |chunks| ==> 0 < |chunks[i]| <= size
    ensures forall i :: 0 <= i < |chunks| - 1 ==> |chunks[i]| == size
    decreases |messages|
  {
    if |messages| == 0 then []
    else
      var k := if |messages| < size then |messages| else size;
      var rest := Chunks(messages[k..], size);
      assert ([messages[..k]] + rest)[1..] == rest;
      assert messages[..k] + messages[k..] == messages;
      [messages[..k]] + rest
  }

  lemma ChunksOfShort(messages: seq<Message>, size: nat)
    requires 0 < |messages| <= size
    ensures Chunks(messages, size) == [messages]
  {
    assert messages[..|messages|] == messages;
    assert Chunks(messages[|messages|..], size) == [];
  }

  lemma ChunksOfLong(messages: seq<Message>, size: nat)
    requires 1 <= size < |messages|
    ensures Chunks(messages, size) == [messages[..size]] + Chunks(messages[size..], size)
  {
  }

  /** An even list of 2m messages is saved as its two halves. */
  lemma EvenHalves(messages: seq<Message>, m: nat)
    requires |messages| == 2 * m && m >= 1
    ensures Chunks(messages, m) == [messages[..m], messages[m..]]
  {
    ChunksOfLong(messages, m);
    ChunksOfShort(messages[m..], m);
  }

  /** An odd list of 2m + 1 messages is saved as two chunks of m and a third
      chunk holding the last message alone. */
  lemma OddHalves(messages: seq<Message>, m: nat)
    requires |messages| == 2 * m + 1 && m >= 1
    ensures Chunks(messages, m) == [messages[..m], messages[m..2 * m], messages[2 * m..]]
  {
    var second := messages[m..];
    ChunksOfLong(messages, m);
    ChunksOfLong(second, m);
    assert second[..m] == messages[m..2 * m];
    assert second[m..] == messages[2 * m..];
    ChunksOfShort(second[m..], m);
  }

  /** The fallback makes 2 chunks for an even list of two or more messages and 3 for an odd one. */
  lemma ChunkCountOfTwoOrMore(messages: seq<Message>)
    requires |messages| >= 2
    ensures |Chunks(messages, ChunkSize(|messages|))| == if |messages| % 2 == 0 then 2 else 3
  {
    var m := |messages| / 2;
    if |messages| % 2 == 0 {
      EvenHalves(messages, m);
    } else {
      OddHalves(messages, m);
    }
  }

  /** An empty list makes no chunks. */
  lemma NoChunksForNoMessages()
    ensures Chunks([], ChunkSize(0)) == []
  {
  }

  /** The slices the source loop `for (i = 0; i < n; i += size)` takes from
      position `start` on, each `list.slice(i, i + size)`. */
  function ChunksFrom(list: seq<Message>, size: nat, start: nat): seq<seq<Message>>
    requires size >= 1
    decreases |list| - start
  {
    if start >= |list| then [] else [Slice(list, start, start + size)] + ChunksFrom(list, size, start + size)
  }

  /** One round of the source loop: the slice at `start`, then the slices
      after it, are the slices from `start` on. */
  lemma ChunksFromStep(list: seq<Message>, size: nat, start: nat, before: seq<seq<Message>>)
    requires size >= 1 && start < |list|
    ensures before + [Slice(list, start, start + size)] + ChunksFrom(list, size, start + size) ==
      before + ChunksFrom(list, size, start)
  {
    assert ChunksFrom(list, size, start) == [Slice(list, start, start + size)] + ChunksFrom(list, size, start + size);
  }

  /** A slice that starts inside the list ends at `start + size` or at the list's end. */
  lemma SliceFrom(list: seq<Message>, start: nat, size: nat)
    requires size >= 1 && start < |list|
    ensures start + size <= |list| ==> Slice(list, start, start + size) == list[start..][..size]
    ensures start + size > |list| ==> Slice(list, start, start + size) == list[start..]
  {
  }

  /** The loop's slices from `start` on are the chunks of the rest of the list. */
  lemma {:induction false} ChunksFromIsChunks(list: seq<Message>, size: nat, start: nat)
    requires size >= 1 && start <= |list|
    ensures ChunksFrom(list, size, start) == Chunks(list[start..], size)
    decreases |list| - start
  {
    if start < |list| {
      var rest := list[start..];
      SliceFrom(list, start, size);
      if |rest| <= size {
        ChunksOfShort(rest, size);
        if start + size == |list| {
          assert rest[..size] == rest;
        }
      } else {
        ChunksOfLong(rest, size);
        assert rest[size..] == list[start + size..];
        ChunksFromIsChunks(list, size, start + size);
      }
    }
  }

  // ---------------------------------------------------------------- the quota fallback

  /** The store after `setItem('chatMessages_' + j, chunks[j])` for j = 0, 1, ... in order. */
  function WriteChunks(items: map<string, Entry>, chunks: seq<seq<Message>>): (written: map<string, Entry>)
    ensures forall j :: 0 <= j < |chunks| ==> Lookup(written, ChunkKey(j)) == Some(Serialized(chunks[j]))
    ensures forall key :: key !in ChunkKeys(|chunks|) ==> Lookup(written, key) == Lookup(items, key)
  {
    if |chunks| == 0 then items
    else
      var n := |chunks| - 1;
      var before := WriteChunks(items, chunks[..n]);
      forall j | 0 <= j < n
        ensures ChunkKey(j) != ChunkKey(n)
      {
        if ChunkKey(j) == ChunkKey(n) {
          ChunkKeyInjective(j, n);
        }
      }
      assert ChunkKeys(|chunks|) == ChunkKeys(n) + {ChunkKey(n)};
      before[ChunkKey(n) := Serialized(chunks[n])]
  }

  /** Writing one more chunk extends the writes of the chunks before it. */
  lemma WriteNextChunk(items: map<string, Entry>, chunks: seq<seq<Message>>, index: nat)
    requires index < |chunks|
    ensures WriteChunks(items, chunks[..index + 1]) == WriteChunks(items, chunks[..index])[ChunkKey(index) := Serialized(chunks[index])]
  {
    assert chunks[..index + 1][..index] == chunks[..index];
  }

  /** The store after the quota fallback: every chunk under its indexed key,
      then `String(chunks.length)` under the count key. */
  function ChunkedSave(items: map<string, Entry>, messages: seq<Message>): map<string, Entry> {
    var chunks := Chunks(messages, ChunkSize(|messages|));
    WriteChunks(items, chunks)[CountKey := Raw(NatToString(|chunks|))]
  }

  // ---------------------------------------------------------------- loading

  /** How the loader reads the count value: `None` when it is missing or the
      empty string (both falsy); otherwise the bound of the loop
      `i < parseInt(count)`, which runs no round when parseInt is NaN or
      negative. A serialized list starts with `[`, so parseInt gives NaN. */
  function ChunkCount(stored: Option<Entry>): (count: Option<nat>)
    ensures count.None? <==> stored.None? || stored == Some(Raw(""))
    ensures stored.Some? && stored.value.Serialized? ==> count == Some(0)
  {
    match stored
    case None => None
    case Some(Raw(text)) =>
      if text == "" then None
      else (match ParseInt(text)
            case None => Some(0)
            case Some(v) => Some(if v < 0 then 0 else v))
    case Some(Serialized(_)) => Some(0)
  }

  /** The number of chunk keys the loader and clearHistory visit. */
  function ChunkBound(items: map<string, Entry>): nat {
    match ChunkCount(Lookup(items, CountKey))
    case None => 0
    case Some(count) => count
  }

  /** The bound is the parsed count, or zero when there is none. */
  lemma ChunkBoundOfCount(items: map<string, Entry>, count: Option<nat>)
    requires count == ChunkCount(Lookup(items, CountKey))
    ensures ChunkBound(items) == if count.Some? then count.value else 0
  {
  }

  /** Reassembly of chunks 0 to count - 1: a missing or empty value is
      skipped, a serialized list is appended, and any other text makes the
      parse throw, which abandons the load (`None`). */
  function LoadChunks(items: map<string, Entry>, count: nat): Option<seq<Message>> {
    if count == 0 then Some([])
    else match LoadChunks(items, count - 1)
      case None => None
      case Some(loaded) =>
        match Lookup(items, ChunkKey(count - 1))
        case None => Some(loaded)
        case Some(Raw(text)) => if text == "" then Some(loaded) else None
        case Some(Serialized(chunk)) => Some(loaded + chunk)
  }

  /** The list the load effect hands to setMessages, or `None` when it sets nothing. */
  function LoadedChunks(items: map<string, Entry>): Option<seq<Message>> {
    match ChunkCount(Lookup(items, CountKey))
    case None => None
    case Some(count) => LoadChunks(items, count)
  }

  /** The list the page starts from: the parsed `chatMessages` value, or the
      empty list when it is missing or empty; `None` when the value does not
      parse as a list, where the page's initializer throws. */
  function InitialMessages(items: map<string, Entry>): Option<seq<Message>> {
    match Lookup(items, MainKey)
    case None => Some([])
    case Some(Raw(text)) => if text == "" then Some([]) else None
    case Some(Serialized(ms)) => Some(ms)
  }

  /** The transcript shown after the page mounts: the initial list, replaced by
      the reassembled chunks when the load effect sets them. */
  function MountedMessages(items: map<string, Entry>): Option<seq<Message>> {
    match InitialMessages(items)
    case None => None
    case Some(initial) =>
      match LoadedChunks(items)
      case Some(loaded) => Some(loaded)
      case None => Some(initial)
  }

  /** The initializer throws exactly when `chatMessages` holds text that is
      not a list; a missing or empty value starts an empty transcript. */
  lemma InitialMessagesThrowsOnlyOnText(items: map<string, Entry>)
    ensures InitialMessages(items).None? <==>
      Lookup(items, MainKey).Some? && Lookup(items, MainKey).value.Raw? && Lookup(items, MainKey).value.text != ""
    ensures Lookup(items, MainKey).None? ==> InitialMessages(items) == Some([])
  {
  }

  /** On mount the reassembled chunks win over the primary list; without a
      count key the primary list is what the page shows. */
  lemma MountPrefersChunks(items: map<string, Entry>)
    ensures MountedMessages(items).None? <==> InitialMessages(items).None?
    ensures InitialMessages(items).Some? && LoadedChunks(items).Some? ==> MountedMessages(items) == LoadedChunks(items)
    ensures Lookup(items, CountKey).None? ==> MountedMessages(items) == InitialMessages(items)
  {
  }

  lemma {:induction false} LoadChunksOfWritten(items: map<string, Entry>, chunks: seq<seq<Message>>, count: nat)
    requires count <= |chunks|
    requires forall j :: 0 <= j < |chunks| ==> Lookup(items, ChunkKey(j)) == Some(Serialized(chunks[j]))
    ensures LoadChunks(items, count) == Some(Flatten(chunks[..count]))
  {
    if count > 0 {
      LoadChunksOfWritten(items, chunks, count - 1);
      assert chunks[..count] == chunks[..count - 1] + [chunks[count - 1]];
      FlattenSnoc(chunks[..count - 1], chunks[count - 1]);
    }
  }

  /** Round trip of the quota fallback: the loader reassembles exactly the
      saved list, whatever the store held before, stale chunks included. */
  lemma ChunkedSaveLoads(items: map<string, Entry>, messages: seq<Message>)
    ensures LoadedChunks(ChunkedSave(items, messages)) == Some(messages)
  {
    var chunks := Chunks(messages, ChunkSize(|messages|));
    var saved := ChunkedSave(items, messages);
    ParseIntOfNatToString(|chunks|);
    assert ChunkCount(Lookup(saved, CountKey)) == Some(|chunks|);
    LoadChunksOfWritten(saved, chunks, |chunks|);
    assert chunks[..|chunks|] == chunks;
  }

  /** The loader reads no chunk key at or beyond the count it was given. */
  lemma {:induction false} LoadChunksReadsOnlyCountedKeys(a: map<string, Entry>, b: map<string, Entry>, count: nat)
    requires forall j :: 0 <= j < count ==> Lookup(a, ChunkKey(j)) == Lookup(b, ChunkKey(j))
    ensures LoadChunks(a, count) == LoadChunks(b, count)
  {
    if count > 0 {
      LoadChunksReadsOnlyCountedKeys(a, b, count - 1);
    }
  }

  /** Two stores that agree on the count key and on the chunk keys below the
      count load the same list: stale chunks from an earlier, longer save are
      never read. */
  lemma LoadedChunksReadsOnlyCountedKeys(a: map<string, Entry>, b: map<string, Entry>)
    requires Lookup(a, CountKey) == Lookup(b, CountKey)
    requires forall j :: 0 <= j < ChunkBound(a) ==> Lookup(a, ChunkKey(j)) == Lookup(b, ChunkKey(j))
    ensures LoadedChunks(a) == LoadedChunks(b)
  {
    LoadChunksReadsOnlyCountedKeys(a, b, ChunkBound(a));
  }

  /** A missing chunk contributes nothing: the load is the same as with an empty chunk in its place. */
  lemma {:induction false} MissingChunkIsSkipped(items: map<string, Entry>, missing: nat, count: nat)
    requires ChunkKey(missing) !in items
    ensures LoadChunks(items, count) == LoadChunks(items[ChunkKey(missing) := Serialized([])], count)
  {
    if count > 0 {
      MissingChunkIsSkipped(items, missing, count - 1);
      var filled := items[ChunkKey(missing) := Serialized([])];
      if ChunkKey(count - 1) == ChunkKey(missing) {
        match LoadChunks(items, count - 1) {
          case Some(loaded) => assert loaded + [] == loaded;
          case None =>
        }
      }
    }
  }

  /** Once a chunk fails to parse, the load stays abandoned however many chunks follow. */
  lemma {:induction false} LoadChunksStaysAbandoned(items: map<string, Entry>, failed: nat, count: nat)
    requires failed <= count
    requires LoadChunks(items, failed) == None
    ensures LoadChunks(items, count) == None
  {
    if failed < count {
      LoadChunksStaysAbandoned(items, failed, count - 1);
    }
  }

  /** The quota fallback leaves the primary key as it was. */
  lemma ChunkedSaveKeepsMainKey(items: map<string, Entry>, messages: seq<Message>)
    ensures Lookup(ChunkedSave(items, messages), MainKey) == Lookup(items, MainKey)
  {
    var chunks := Chunks(messages, ChunkSize(|messages|));
    var written := WriteChunks(items, chunks);
    assert MainKey !in ChunkKeys(|chunks|) by {
      forall j | 0 <= j < |chunks|
        ensures ChunkKey(j) != MainKey
      {
      }
    }
    assert Lookup(written, MainKey) == Lookup(items, MainKey);
  }

  /** The quota fallback followed by a reload shows exactly the saved list. */
  lemma ChunkedSaveThenMount(items: map<string, Entry>, messages: seq<Message>)
    requires InitialMessages(items).Some?
    ensures MountedMessages(ChunkedSave(items, messages)) == Some(messages)
  {
    var saved := ChunkedSave(items, messages);
    ChunkedSaveLoads(items, messages);
    ChunkedSaveKeepsMainKey(items, messages);
    assert InitialMessages(saved) == InitialMessages(items);
    assert LoadedChunks(saved) == Some(messages);
  }

  /** A successful primary write followed by a reload shows the saved list,
      unless a count key left by an earlier fallback is still stored: the
      primary write touches neither it nor the chunks, so the stale chunks are
      loaded over the newer list. */
  lemma PrimarySaveThenMount(items: map<string, Entry>, messages: seq<Message>)
    ensures MountedMessages(items[MainKey := Serialized(messages)]) ==
      if LoadedChunks(items).Some? then LoadedChunks(items) else Some(messages)
  {
    var saved := items[MainKey := Serialized(messages)];
    forall j | 0 <= j < ChunkBound(saved)
      ensures Lookup(saved, ChunkKey(j)) == Lookup(items, ChunkKey(j))
    {
    }
    LoadedChunksReadsOnlyCountedKeys(saved, items);
  }

  // ---------------------------------------------------------------- clearing

  /** The store after clearHistory: the chunk keys below the stored count, the
      primary key and the count key are gone; every other key is kept. */
  function Cleared(items: map<string, Entry>): map<string, Entry>
  {
    items - ChunkKeys(ChunkBound(items)) - {MainKey, CountKey}
  }

  /** Clearing removes the primary key, the count key and the chunk keys
      below the stored count, and keeps every other key as it was. */
  lemma ClearedRemovesExactly(items: map<string, Entry>)
    ensures MainKey !in Cleared(items) && CountKey !in Cleared(items)
    ensures forall j :: 0 <= j < ChunkBound(items) ==> ChunkKey(j) !in Cleared(items)
    ensures forall key :: key !in ChunkKeys(ChunkBound(items)) && key != MainKey && key != CountKey ==>
      Lookup(Cleared(items), key) == Lookup(items, key)
  {
  }

  /** Removing the primary and count keys from the store without its chunk
      keys leaves the cleared store. */
  lemma ClearedByRemovals(items: map<string, Entry>, chunkless: map<string, Entry>, cleared: map<string, Entry>)
    requires chunkless == items - ChunkKeys(ChunkBound(items))
    requires cleared == chunkless - {MainKey} - {CountKey}
    ensures cleared == Cleared(items)
  {
    assert chunkless - {MainKey} - {CountKey} == chunkless - {MainKey, CountKey};
  }

  /** After clearHistory a reload shows an empty transcript. */
  lemma ClearedMountsEmpty(items: map<string, Entry>)
    ensures MountedMessages(Cleared(items)) == Some([])
  {
  }

  /** clearHistory removes every chunk key that the quota fallback wrote. */
  lemma ClearRemovesSavedChunks(items: map<string, Entry>, messages: seq<Message>)
    ensures var chunks := Chunks(messages, ChunkSize(|messages|));
      forall j :: 0 <= j < |chunks| ==> ChunkKey(j) !in Cleared(ChunkedSave(items, messages))
  {
    var chunks := Chunks(messages, ChunkSize(|messages|));
    ParseIntOfNatToString(|chunks|);
    assert ChunkBound(ChunkedSave(items, messages)) == |chunks|;
  }
}
