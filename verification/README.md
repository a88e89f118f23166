# Chat message pipeline

A Dafny model of the message pipeline of the FirebaseExample chat screen
(`FirebaseExample/ChatViewController.swift`). The app keeps one list,
`messageContents`, in step with a live query on the `chats` collection.
Every delivery of the query carries the whole collection. The listener
closure in `loadMessages()` does three things. It clears the list. It
decodes each document with `MessageContent.init?(dictionary:)` and appends
the result. It sorts the list by `order`. The table view then reads the list
row by row, and `sendMessage()` writes new documents.

The model is functional and has five modules. `Wrappers` (`wrappers.dfy`)
holds the `Option` type that stands for Swift's optionals. The other four are:

- `Message` (`message.dfy`) covers the document record and the decoder. A
  record is a map from field name to a tagged `Value`: a string, a
  `Timestamp`, the server-timestamp placeholder, or anything else. The
  failable initialiser becomes `Decode`, which returns an `Option`.
- `Ordering` (`ordering.dfy`) covers the sort by `order`. The model sorts by
  insertion, but the only claim made is what `sort(by:)` promises: the result
  is an ascending permutation. It also proves that this promise fixes the
  sequence of keys, and with distinct keys the whole list.
- `Listener` (`listener.dfy`) covers the listener closure. `OnSnapshot` is a
  function of the previous list and the delivery. `ApplySnapshot` is the same
  closure written as the source writes it: a loop with an early return. It is
  proved equal to `OnSnapshot`.
- `Chat` (`chat.dfy`) covers the row count, the `isMe` test of
  `cellForRowAt`, and the record that `sendMessage()` writes. It also covers
  the screen as a pair of the list and the row count the table last loaded.

Three behaviours of the code that a reader of a live feed might not expect, all modelled as written:

- A document that fails to decode is not skipped. The closure returns at
  that document, so the list keeps only the messages decoded before it. No
  sort is applied and the table is not reloaded. Later well-formed documents
  are not shown. The table keeps the row count of its last reload, so it can
  show more rows than the list holds. It can also show fewer: a first
  delivery that fails after two good documents leaves two messages in the
  list under a table with no rows. `Chat.Screen` tracks both counts.
- The sort is not claimed to be stable, because the code uses `sort(by:)`.
- The decoder accepts empty `userID` and `message` strings, because the code
  never checks for them.

The device identifier is a parameter. The backend appears in only two ways.
A delivery is an input value. `Chat.CommitRecord` models the backend's commit
of a write, which is not application code. It assumes the backend stores every
field as written, except that each server-timestamp placeholder becomes the
one commit time. Only the commit time is a parameter.

## Model

| member | source | states |
|---|---|---|
| Message.Decode | FirebaseExample/ChatViewController.swift:18-27 | decoding succeeds exactly when `userID` and `message` hold strings and `order` holds a timestamp; the message's three fields are those values |
| Message.DecodeReadsOnlyItsKeys | FirebaseExample/ChatViewController.swift:19-21 | two records that agree on `userID`, `message` and `order` decode to the same result |
| Message.DecodeIgnoresOtherFields | FirebaseExample/ChatViewController.swift:19-21 | adding or changing any other field does not change the decoded result |
| Message.DecodeEncode | FirebaseExample/ChatViewController.swift:18-27 | the well-formed record of a message decodes back to that message |
| Message.DecodeIsEncodeOnItsKeys | FirebaseExample/ChatViewController.swift:18-27 | a record decodes to `m` if and only if its three read fields equal those of `m`'s record |
| Ordering.SortByOrder | FirebaseExample/ChatViewController.swift:93 | the sorted list is non-decreasing by `order`, is a permutation (multiset-equal) of its input, and has the same length |
| Ordering.SortedOrdersUnique | FirebaseExample/ChatViewController.swift:93 | any two ascending permutations of the same messages have the same sequence of keys, so only the order of ties is left open |
| Ordering.SortedDistinctUnique | FirebaseExample/ChatViewController.swift:93 | when no two messages share a key, the ascending permutation is unique |
| Ordering.SortKeepsDistinct | FirebaseExample/ChatViewController.swift:93 | sorting a list with distinct keys gives a list with distinct keys |
| Listener.DecodeLoop | FirebaseExample/ChatViewController.swift:87-92 | the loop yields, in document order, the decoded documents before the first that fails; it completes exactly when every document decodes |
| Listener.DecodedPrefixUnique | FirebaseExample/ChatViewController.swift:87-92 | a delivery has exactly one decoded prefix, so the loop's result is determined |
| Listener.OnSnapshot | FirebaseExample/ChatViewController.swift:80-94 | nil keeps the list and skips the reload; all documents decoded gives a sorted permutation of them, one per document, and a reload; a failure gives the decoded prefix in delivery order, shorter than the delivery, and no reload |
| Listener.ApplySnapshot | FirebaseExample/ChatViewController.swift:80-93 | the closure as written (clear, append in a loop, return early, sort) computes the list and reload flag `OnSnapshot` describes |
| Listener.ResultIgnoresPreviousList | FirebaseExample/ChatViewController.swift:85 | a non-nil delivery's result does not depend on the previous list |
| Listener.RedeliveryIsIdempotent | FirebaseExample/ChatViewController.swift:80-93 | handling the same delivery a second time gives the same list and flag as handling it once |
| Listener.NothingPastAFailure | FirebaseExample/ChatViewController.swift:87-90 | if the document at position k fails to decode, the list has at most k messages and the table is not reloaded |
| Listener.AnySortAgreesOnOrders | FirebaseExample/ChatViewController.swift:93 | when every document decodes, the list's keys equal those of every ascending permutation of the decoded messages |
| Listener.DistinctOrdersDetermineList | FirebaseExample/ChatViewController.swift:93 | when every document decodes and no two share a key, the list is the unique ascending permutation of the decoded messages |
| Chat.OutgoingRecord | FirebaseExample/ChatViewController.swift:100-104 | the sent record holds exactly `userID`, `message` and `order`; it does not decode while `order` is the server placeholder, and once committed at time t it decodes to the device's message with the field's text (or "") and key t |
| Chat.Deliver | FirebaseExample/ChatViewController.swift:85-94 | a nil delivery changes nothing; a fully decoded delivery gives a sorted permutation of the decoded documents, one row per document, and a table that matches the list; a failing delivery leaves the decoded prefix, fewer messages than documents, under a table that keeps its old row count |
| Chat.HiddenRowsExample | FirebaseExample/ChatViewController.swift:87-94 | a first delivery of two good documents and an empty one leaves both messages in the list under a table with no rows |
| Chat.DeliverKeepsInSync | FirebaseExample/ChatViewController.swift:81-94 | after a nil or fully decoded delivery, a table that matched the list still matches it |
| Chat.FailingDeliveryLeavesStaleRows | FirebaseExample/ChatViewController.swift:87-90 | a delivery that fails at position k, arriving while the table shows more than k rows, leaves the table showing more rows than the list holds |
| Chat.StaleRowsExample | FirebaseExample/ChatViewController.swift:87-94 | two good documents load a two-row table; a later delivery starting with an empty document empties the list but leaves two rows |
| Chat.RowCountAfterSnapshot | FirebaseExample/ChatViewController.swift:112-114 | after nil the row count is unchanged; after a full decode it equals the number of documents; after a failure it is the position of the first failing document |
| Chat.SentMessageIsMineExactlyOnSender | FirebaseExample/ChatViewController.swift:116-119 | a row holding a message that device d sent is marked mine on device d and on no other device |
| Chat.TwoMessagesAreSorted | FirebaseExample/ChatViewController.swift:87-93 | two well-formed documents delivered in reverse key order end up ascending, and the table reloads |
| Chat.MalformedRecordLeavesListUnsorted | FirebaseExample/ChatViewController.swift:87-93 | adding an empty document after those two leaves them in delivery order, unsorted, with no reload |

## Left out

- Firestore I/O is not modelled: `getDocuments`, `addDocument`, `addSnapshotListener` and `FieldValue.serverTimestamp()` are calls into a foreign SDK. A delivery is an input value. The commit of a write is modelled by `CommitRecord`, assuming the backend stores every field as written except that each server-timestamp placeholder becomes the one commit time; only the commit time is a parameter.
- The welcome-message bootstrap (`updateWelcomeMessage` and `addInitialDocument`) is left out. It is asynchronous orchestration against the backend, and its check-then-create race depends on the backend.
- `Timestamp.dateValue()` and `Date` comparison are floating point. `order` is an integer key. Two timestamps that differ below `Date`'s precision would compare equal in the app, and the model does not capture this.
- Listener.OnSnapshot: stops at `reloadData()` and leaves out the following `scrollToRow` call. On a delivery whose documents all decode but which is empty, that call asks for row -1. UIKit rejects an out-of-range row with an exception, so the app traps there. The model returns the state just before the trap: an empty list with the reload flag set.
- Chat.IsMe: its precondition excludes the rows the list cannot index. The app can still be asked for them. After a failing delivery the list shrinks, but the table keeps the row count of its last reload, and `messageContents[indexPath.row]` then traps. `Chat.FailingDeliveryLeavesStaleRows` and `Chat.StaleRowsExample` show that this state is reachable. The model does not say what happens after the trap.
- Listener.OnSnapshot: claims no stability for ties, because `sort(by:)` does not promise any. The model's insertion sort breaks ties one particular way, and no lemma depends on that choice.
- `reloadData`, `scrollToRow`, the keyboard handlers with their fixed 346-point offset, and the text-field delegate are UI. The model keeps two effects of `reloadData()`: whether the closure reached it, and the row count the table loaded (`Chat.Screen`). Clearing the text field after sending is also UI.
- `ChatListCell.swift` is left out. It only shows or hides views and sets label text from `isMe` and the message.
- `identifierForVendor` is not modelled. The device identifier is a parameter, and a nil identifier (which would trap the force-unwrap) is not modelled.
- Swift's `String ==` compares Unicode canonical equivalence. The model compares sequences of Unicode scalar values. The two agree on the ASCII UUID strings the app compares.
- The closure captures `self` weakly. The model ignores the case where the controller has been deallocated, in which the closure does nothing.
