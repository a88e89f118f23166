/**
 * The body of the snapshot listener registered by `loadMessages()` in
 * FirebaseExample/ChatViewController.swift. Each delivery carries the whole
 * collection (or nil); the closure clears `messageContents`, decodes the
 * documents in delivery order, returns early on the first that does not
 * decode, and otherwise sorts the list by `order` and reloads the table.
 */
module Listener {
  import opened Wrappers
  import opened Message
  import opened Ordering

  /** One delivery: the documents' data in delivery order, or nil. */
  type Snapshot = Option<seq<Record>>

  /** The list the closure leaves behind, and whether it reached `reloadData()`. */
  datatype ListenerResult = ListenerResult(contents: seq<MessageContent>, reloaded: bool)

  /** The messages decoded before the loop stopped, and whether it ran to the end. */
  datatype Run = Run(decoded: seq<MessageContent>, complete: bool)

  predicate AllDecode(docs: seq<Record>) {
    forall i :: 0 <= i < |docs| ==> Decode(docs[i]).Some?
  }

  /**
   * `p` lists, in order, the messages decoded from `docs` up to (not
   * including) the first document that does not decode.
   */
  predicate DecodedPrefix(docs: seq<Record>, p: seq<MessageContent>) {
    && |p| <= |docs|
    && (forall i :: 0 <= i < |p| ==> Decode(docs[i]) == Some(p[i]))
    && (|p| < |docs| ==> Decode(docs[|p|]).None?)
  }

  /**
   * The `for snap in snapshots.documents` loop with its early `return`:
   * decode from the front until a document fails.
   */
  function DecodeLoop(docs: seq<Record>): (r: Run)
    ensures DecodedPrefix(docs, r.decoded)
    ensures r.complete <==> AllDecode(docs)
    ensures r.complete <==> |r.decoded| == |docs|
    decreases |docs|
  {
    if |docs| == 0 then Run([], true)
    else
      match Decode(docs[0])
      case None => Run([], false)
      case Some(m) =>
        var rest := DecodeLoop(docs[1..]);
        assert forall i :: 1 <= i < |docs| ==> docs[1..][i - 1] == docs[i];
        Run([m] + rest.decoded, rest.complete)
  }

  /** There is only one decoded prefix of a delivery. */
  lemma {:induction false} DecodedPrefixUnique(docs: seq<Record>, p: seq<MessageContent>, q: seq<MessageContent>)
    requires DecodedPrefix(docs, p) && DecodedPrefix(docs, q)
    ensures p == q
  {
    assert |p| == |q|;
    forall i | 0 <= i < |p| ensures p[i] == q[i] {
      assert Some(p[i]) == Decode(docs[i]) == Some(q[i]);
    }
  }

  /** The listener closure as a function of the previous list and the delivery. */
  function OnSnapshot(messageContents: seq<MessageContent>, snaps: Snapshot): (r: ListenerResult)
    // a nil delivery: `guard let snapshots = snaps else { return }`
    ensures snaps.None? ==> r == ListenerResult(messageContents, false)
    // every document decodes: all of them, sorted, and the table reloads
    ensures snaps.Some? && AllDecode(snaps.value) ==>
              && r.reloaded
              && |r.contents| == |snaps.value|
              && SortedByOrder(r.contents)
              && multiset(r.contents) == multiset(DecodeLoop(snaps.value).decoded)
    // some document fails: the decoded prefix, in delivery order, and no reload
    ensures snaps.Some? && !AllDecode(snaps.value) ==>
              && !r.reloaded
              && DecodedPrefix(snaps.value, r.contents)
              && |r.contents| < |snaps.value|
  {
    match snaps
    case None => ListenerResult(messageContents, false)
    case Some(docs) =>
      var run := DecodeLoop(docs);
      if run.complete then ListenerResult(SortByOrder(run.decoded), true)
      else ListenerResult(run.decoded, false)
  }

  /**
   * The closure written as the source writes it: clear the list, append in a
   * loop, return early on a failed decode, sort at the end.
   */
  method ApplySnapshot(messageContents: seq<MessageContent>, snaps: Snapshot)
    returns (contents: seq<MessageContent>, reloaded: bool)
    ensures ListenerResult(contents, reloaded) == OnSnapshot(messageContents, snaps)
  {
    if snaps.None? {
      return messageContents, false;
    }
    var docs := snaps.value;
    contents := [];
    var i := 0;
    while i < |docs|
      invariant 0 <= i <= |docs|
      invariant |contents| == i
      invariant forall k :: 0 <= k < i ==> Decode(docs[k]) == Some(contents[k])
    {
      var message := Decode(docs[i]);
      if message.None? {
        DecodedPrefixUnique(docs, contents, DecodeLoop(docs).decoded);
        return contents, false;
      }
      contents := contents + [message.value];
      i := i + 1;
    }
    DecodedPrefixUnique(docs, contents, DecodeLoop(docs).decoded);
    contents := SortByOrder(contents);
    reloaded := true;
  }

  /** A non-nil delivery replaces the list: the previous contents play no part. */
  lemma ResultIgnoresPreviousList(p: seq<MessageContent>, q: seq<MessageContent>, docs: seq<Record>)
    ensures OnSnapshot(p, Some(docs)) == OnSnapshot(q, Some(docs))
  {
  }

  /** Delivering the same snapshot twice leaves what the first delivery left. */
  lemma RedeliveryIsIdempotent(p: seq<MessageContent>, snaps: Snapshot)
    ensures OnSnapshot(OnSnapshot(p, snaps).contents, snaps) == OnSnapshot(p, snaps)
  {
  }

  /**
   * A document that does not decode hides itself and every document after it:
   * the list never grows past its position, whatever the later documents hold.
   */
  lemma NothingPastAFailure(p: seq<MessageContent>, docs: seq<Record>, k: nat)
    requires k < |docs| && Decode(docs[k]).None?
    ensures |OnSnapshot(p, Some(docs)).contents| <= k
    ensures !OnSnapshot(p, Some(docs)).reloaded
  {
  }

  /**
   * When every document decodes, the keys of the new list are the snapshot's
   * keys in ascending order, whichever way a sort breaks ties.
   */
  lemma AnySortAgreesOnOrders(p: seq<MessageContent>, docs: seq<Record>, q: seq<MessageContent>)
    requires AllDecode(docs)
    requires SortedByOrder(q) && multiset(q) == multiset(DecodeLoop(docs).decoded)
    ensures Orders(OnSnapshot(p, Some(docs)).contents) == Orders(q)
  {
    SortedOrdersUnique(OnSnapshot(p, Some(docs)).contents, q);
  }

  /** With no two documents sharing a key, the new list is fully determined. */
  lemma DistinctOrdersDetermineList(p: seq<MessageContent>, docs: seq<Record>, q: seq<MessageContent>)
    requires AllDecode(docs)
    requires forall i, j :: 0 <= i < j < |docs| ==> Decode(docs[i]).value.order != Decode(docs[j]).value.order
    requires SortedByOrder(q) && multiset(q) == multiset(DecodeLoop(docs).decoded)
    ensures OnSnapshot(p, Some(docs)).contents == q
  {
    var d := DecodeLoop(docs).decoded;
    assert DistinctOrders(d) by {
      forall i, j | 0 <= i < j < |d| ensures d[i].order != d[j].order {
        assert Decode(docs[i]) == Some(d[i]) && Decode(docs[j]) == Some(d[j]);
      }
    }
    SortKeepsDistinct(d);
    SortedDistinctUnique(OnSnapshot(p, Some(docs)).contents, q);
  }
}
