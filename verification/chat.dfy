/**
 * What the view controller of FirebaseExample/ChatViewController.swift does
 * with the list besides maintaining it: the table's row count, the "is this
 * my message" test of each cell, and the record `sendMessage()` writes.
 * The device identifier (`identifierForVendor.uuidString`) is a parameter.
 */
module Chat {
  import opened Wrappers
  import opened Message
  import opened Ordering
  import opened Listener

  /** `numberOfRowsInSection`: one row per message in the list. */
  function RowCount(messageContents: seq<MessageContent>): (n: nat) {
    |messageContents|
  }

  /**
   * The `isMe` flag `cellForRowAt` hands to the cell for row `row`. The
   * source subscripts the list with the row, which traps when the row is
   * not a position of the list; hence the precondition.
   */
  predicate IsMe(messageContents: seq<MessageContent>, row: nat, deviceID: string)
    requires row < RowCount(messageContents)
  {
    messageContents[row].userID == deviceID
  }

  /** `messageTextField.text ?? ""`: the field's text, or the empty string when it has none. */
  function TextOrEmpty(text: Option<string>): (s: string) {
    match text
    case Some(t) => t
    case None => ""
  }

  /**
   * The record `sendMessage()` writes: the device as author, the text field's
   * contents (empty when it has none), and a server-timestamp placeholder.
   * It holds just the three fields the decoder reads; it does not decode as
   * written, and it decodes to the device's message once committed.
   */
  function OutgoingRecord(deviceID: string, text: Option<string>): (rec: Record)
    ensures rec.Keys == {UserIDKey, MessageKey, OrderKey}
    ensures Decode(rec) == None
    ensures forall t :: Decode(CommitRecord(rec, t)) == Some(MessageContent(deviceID, TextOrEmpty(text), t))
  {
    map[UserIDKey := Str(deviceID), MessageKey := Str(TextOrEmpty(text)), OrderKey := ServerTimestamp]
  }

  /**
   * The backend's commit of a write, which is not code of the application.
   * The model assumes the backend stores every field as written, except that
   * each server-timestamp placeholder becomes the one commit time. Only
   * `commitTime` is a parameter.
   */
  function CommitRecord(rec: Record, commitTime: int): (stored: Record)
    // the stored document has the written fields and no placeholder left
    ensures stored.Keys == rec.Keys
    ensures forall k :: k in stored ==> !stored[k].ServerTimestamp?
    // a write without placeholders is stored exactly as written
    ensures (forall k :: k in rec ==> !rec[k].ServerTimestamp?) ==> stored == rec
  {
    map k | k in rec :: if rec[k].ServerTimestamp? then Ts(commitTime) else rec[k]
  }

  /**
   * The row count after a delivery: unchanged for nil, every document when all
   * decode, and otherwise the position of the first document that does not.
   */
  lemma RowCountAfterSnapshot(prev: seq<MessageContent>, snaps: Snapshot)
    ensures snaps.None? ==> RowCount(OnSnapshot(prev, snaps).contents) == RowCount(prev)
    ensures snaps.Some? && AllDecode(snaps.value) ==>
              RowCount(OnSnapshot(prev, snaps).contents) == |snaps.value|
    ensures snaps.Some? && !AllDecode(snaps.value) ==>
              var n := RowCount(OnSnapshot(prev, snaps).contents);
              n < |snaps.value| && Decode(snaps.value[n]).None?
              && forall i :: 0 <= i < n ==> Decode(snaps.value[i]).Some?
  {
  }

  /**
   * A row holding a message some device sent is drawn as mine on exactly that
   * device, and as someone else's on every other.
   */
  lemma SentMessageIsMineExactlyOnSender(
    messageContents: seq<MessageContent>, row: nat,
    sender: string, text: Option<string>, commitTime: int, deviceID: string)
    requires row < |messageContents|
    requires Some(messageContents[row]) == Decode(CommitRecord(OutgoingRecord(sender, text), commitTime))
    ensures IsMe(messageContents, row, deviceID) <==> deviceID == sender
  {
  }

  /**
   * A delivery of two well-formed documents out of key order yields them
   * sorted, and the table reloads.
   */
  lemma TwoMessagesAreSorted()
    ensures OnSnapshot([], Some([Encode(MessageContent("a1", "hi", 2)), Encode(MessageContent("a2", "yo", 1))]))
            == ListenerResult([MessageContent("a2", "yo", 1), MessageContent("a1", "hi", 2)], true)
  {
    var docs := [Encode(MessageContent("a1", "hi", 2)), Encode(MessageContent("a2", "yo", 1))];
    DecodeEncode(MessageContent("a1", "hi", 2));
    DecodeEncode(MessageContent("a2", "yo", 1));
    assert DecodeLoop(docs[1..]).decoded == [MessageContent("a2", "yo", 1)];
  }

  /**
   * The same two documents followed by an empty one: the loop stops at the
   * empty document, so the list keeps the first two in delivery order,
   * unsorted, and the table is not reloaded.
   */
  lemma MalformedRecordLeavesListUnsorted()
    ensures var r := OnSnapshot([], Some([Encode(MessageContent("a1", "hi", 2)),
                                        Encode(MessageContent("a2", "yo", 1)), map[]]));
            && r == ListenerResult([MessageContent("a1", "hi", 2), MessageContent("a2", "yo", 1)], false)
            && !SortedByOrder(r.contents)
  {
    var docs := [Encode(MessageContent("a1", "hi", 2)), Encode(MessageContent("a2", "yo", 1)), map[]];
    DecodeEncode(MessageContent("a1", "hi", 2));
    DecodeEncode(MessageContent("a2", "yo", 1));
    assert Decode(docs[2]) == None;
    assert DecodeLoop(docs[2..]).decoded == [];
    assert docs[1..][1..] == docs[2..];
    assert DecodeLoop(docs[1..]).decoded == [MessageContent("a2", "yo", 1)];
  }

  /**
   * What the screen holds between deliveries: the list, and the number of
   * rows the table loaded at its last `reloadData()`. The table asks
   * `cellForRowAt` for rows below `tableRows`, not below the list's length.
   */
  datatype Screen = Screen(messageContents: seq<MessageContent>, tableRows: nat)

  /** The screen before any delivery: an empty list and an empty table. */
  const InitialScreen: Screen := Screen([], 0)

  /** Every row the table may ask for is a position of the list. */
  predicate InSync(s: Screen) {
    s.tableRows == RowCount(s.messageContents)
  }

  /**
   * One run of the listener closure on the screen: the list becomes what
   * the closure leaves, and the table's row count changes only when the
   * closure reaches `reloadData()`.
   */
  function Deliver(s: Screen, snaps: Snapshot): (s': Screen)
    // nil: nothing changes
    ensures snaps.None? ==> s' == s
    // every document decodes: one sorted row per document, and the table matches the list
    ensures snaps.Some? && AllDecode(snaps.value) ==>
              && InSync(s')
              && RowCount(s'.messageContents) == |snaps.value|
              && SortedByOrder(s'.messageContents)
              && multiset(s'.messageContents) == multiset(DecodeLoop(snaps.value).decoded)
    // some document fails: the list is the decoded prefix, the table keeps its old row count
    ensures snaps.Some? && !AllDecode(snaps.value) ==>
              && s'.tableRows == s.tableRows
              && DecodedPrefix(snaps.value, s'.messageContents)
              && RowCount(s'.messageContents) < |snaps.value|
  {
    var r := OnSnapshot(s.messageContents, snaps);
    Screen(r.contents, if r.reloaded then RowCount(r.contents) else s.tableRows)
  }

  /** Nil deliveries and complete deliveries keep the table in step with the list. */
  lemma DeliverKeepsInSync(s: Screen, snaps: Snapshot)
    requires InSync(s)
    requires snaps.None? || AllDecode(snaps.value)
    ensures InSync(Deliver(s, snaps))
  {
  }

  /**
   * A delivery whose document at position k fails to decode, arriving while
   * the table shows more than k rows, leaves the table showing rows the list
   * no longer has: `cellForRowAt` may then be asked for a row that
   * `messageContents[indexPath.row]` cannot index.
   */
  lemma FailingDeliveryLeavesStaleRows(s: Screen, docs: seq<Record>, k: nat)
    requires k < |docs| && Decode(docs[k]).None?
    requires k < s.tableRows
    ensures var s' := Deliver(s, Some(docs));
            s'.tableRows == s.tableRows && RowCount(s'.messageContents) < s'.tableRows
  {
    NothingPastAFailure(s.messageContents, docs, k);
  }

  /**
   * Two well-formed documents load two rows; a later delivery that puts an
   * empty document first leaves an empty list under a two-row table.
   */
  lemma StaleRowsExample()
    ensures var m1 := MessageContent("a1", "hi", 1);
            var m2 := MessageContent("a2", "yo", 2);
            var s1 := Deliver(InitialScreen, Some([Encode(m1), Encode(m2)]));
            var s2 := Deliver(s1, Some([map[], Encode(m1), Encode(m2)]));
            s1 == Screen([m1, m2], 2) && s2 == Screen([], 2) && !InSync(s2)
  {
    var m1 := MessageContent("a1", "hi", 1);
    var m2 := MessageContent("a2", "yo", 2);
    var docs := [Encode(m1), Encode(m2)];
    DecodeEncode(m1);
    DecodeEncode(m2);
    assert DecodeLoop(docs[1..]).decoded == [m2];
    assert DecodeLoop(docs).decoded == [m1, m2];
    assert SortByOrder([m1, m2]) == [m1, m2] by {
      SortedDistinctUnique(SortByOrder([m1, m2]), [m1, m2]);
    }
    assert Decode(map[]) == None;
  }

  /**
   * A single delivery whose last document is empty: the two messages before
   * it are in the list, but the table, never reloaded, shows no rows.
   */
  lemma HiddenRowsExample()
    ensures var m1 := MessageContent("a1", "hi", 1);
            var m2 := MessageContent("a2", "yo", 2);
            Deliver(InitialScreen, Some([Encode(m1), Encode(m2), map[]])) == Screen([m1, m2], 0)
  {
    var m1 := MessageContent("a1", "hi", 1);
    var m2 := MessageContent("a2", "yo", 2);
    var docs := [Encode(m1), Encode(m2), map[]];
    DecodeEncode(m1);
    DecodeEncode(m2);
    assert Decode(docs[2]) == None;
    assert DecodeLoop(docs[2..]).decoded == [];
    assert docs[1..][1..] == docs[2..];
    assert DecodeLoop(docs[1..]).decoded == [m2];
  }
}
