/**
 * The sort the snapshot listener applies, `messageContents.sort { $0.order < $1.order }`.
 * Swift's `sort(by:)` promises an ascending permutation and nothing about the
 * relative order of ties, so that is all this module claims of `SortByOrder`;
 * `SortedOrdersUnique` shows the claim already fixes the sequence of keys.
 */
module Ordering {
  import opened Message

  /** Non-decreasing by `order`. */
  predicate SortedByOrder(s: seq<MessageContent>) {
    forall i, j :: 0 <= i < j < |s| ==> s[i].order <= s[j].order
  }

  /** No two messages share a key. */
  predicate DistinctOrders(s: seq<MessageContent>) {
    forall i, j :: 0 <= i < j < |s| ==> s[i].order != s[j].order
  }

  /** Non-decreasing sequence of integers. */
  predicate Ascending(s: seq<int>) {
    forall i, j :: 0 <= i < j < |s| ==> s[i] <= s[j]
  }

  /** The ordering keys of a list of messages, in list order. */
  function Orders(s: seq<MessageContent>): (r: seq<int>)
    ensures |r| == |s|
    ensures forall i :: 0 <= i < |s| ==> r[i] == s[i].order
  {
    if |s| == 0 then [] else [s[0].order] + Orders(s[1..])
  }

  /** Places `m` into a sorted list in front of the first message with a larger key. */
  function Insert(m: MessageContent, s: seq<MessageContent>): (r: seq<MessageContent>)
    requires SortedByOrder(s)
    ensures SortedByOrder(r)
    ensures multiset(r) == multiset(s) + multiset{m}
    ensures forall k :: 0 <= k < |r| ==> r[k] == m || r[k] in s
  {
    if |s| == 0 then [m]
    else if m.order <= s[0].order then [m] + s
    else
      var rest := Insert(m, s[1..]);
      assert s == [s[0]] + s[1..];
      [s[0]] + rest
  }

  /** Insertion sort by `order`: an ascending permutation of its input. */
  function SortByOrder(s: seq<MessageContent>): (r: seq<MessageContent>)
    ensures SortedByOrder(r)
    ensures multiset(r) == multiset(s)
    ensures |r| == |s|
  {
    if |s| == 0 then []
    else
      assert s == [s[0]] + s[1..];
      Insert(s[0], SortByOrder(s[1..]))
  }

  /** Taking one element out of a sequence takes it out of its multiset. */
  lemma MultisetRemoveAt<T>(s: seq<T>, j: nat)
    requires j < |s|
    ensures multiset(s) == multiset(s[..j] + s[j+1..]) + multiset{s[j]}
  {
    assert s == s[..j] + [s[j]] + s[j+1..];
  }

  /** Inserting a message whose key is new keeps the keys distinct. */
  lemma {:induction false} InsertKeepsDistinct(m: MessageContent, s: seq<MessageContent>)
    requires SortedByOrder(s) && DistinctOrders(s)
    requires forall x :: x in s ==> x.order != m.order
    ensures DistinctOrders(Insert(m, s))
  {
    var r := Insert(m, s);
    forall i, j | 0 <= i < j < |r| ensures r[i].order != r[j].order {
      if r[i] == m && r[j] == m {
        // two copies of m: impossible, m occurs in r once more than in s, where it does not occur
        assert m !in s;
        assert multiset(r)[m] == 1;
        MultisetTwoPositions(r, i, j);
        assert false;
      } else if r[i] == m || r[j] == m {
      } else {
        var a := IndexOf(s, r[i]);
        var b := IndexOf(s, r[j]);
        if a == b {
          assert multiset(s)[r[i]] <= 1 by { DistinctOrdersOnce(s, a); }
          assert multiset(r)[r[i]] == multiset(s)[r[i]];
          MultisetTwoPositions(r, i, j);
          assert false;
        }
      }
    }
  }

  /** Sorting keeps distinct keys distinct. */
  lemma {:induction false} SortKeepsDistinct(s: seq<MessageContent>)
    requires DistinctOrders(s)
    ensures DistinctOrders(SortByOrder(s))
  {
    if |s| > 0 {
      var t := SortByOrder(s[1..]);
      assert DistinctOrders(s[1..]) by {
        forall i, j | 0 <= i < j < |s| - 1 ensures s[1..][i].order != s[1..][j].order {
          assert s[1..][i] == s[i+1] && s[1..][j] == s[j+1];
        }
      }
      SortKeepsDistinct(s[1..]);
      forall x | x in t ensures x.order != s[0].order {
        assert x in multiset(s[1..]);
        var k := IndexOf(s[1..], x);
        assert s[1..][k] == s[k+1];
      }
      InsertKeepsDistinct(s[0], t);
    }
  }

  /** A message occurring at two positions occurs at least twice in the multiset. */
  lemma MultisetTwoPositions(s: seq<MessageContent>, i: nat, j: nat)
    requires i < j < |s| && s[i] == s[j]
    ensures multiset(s)[s[i]] >= 2
  {
    assert s == s[..i] + [s[i]] + s[i+1..j] + [s[j]] + s[j+1..];
  }

  /** With distinct keys, each message occurs at most once. */
  lemma {:induction false} DistinctOrdersOnce(s: seq<MessageContent>, a: nat)
    requires DistinctOrders(s) && a < |s|
    ensures multiset(s)[s[a]] <= 1
  {
    MultisetRemoveAt(s, a);
    var rest := s[..a] + s[a+1..];
    assert forall k :: 0 <= k < |rest| ==> rest[k].order != s[a].order;
  }

  /** A position at which an element of the multiset of `s` occurs in `s`. */
  lemma IndexOf<T>(s: seq<T>, x: T) returns (j: nat)
    requires x in multiset(s)
    ensures j < |s| && s[j] == x
  {
    assert x in s;
    j :| 0 <= j < |s| && s[j] == x;
  }

  lemma MultisetHead<T>(s: seq<T>)
    requires |s| > 0
    ensures multiset(s) == multiset(s[1..]) + multiset{s[0]}
  {
    assert s == [s[0]] + s[1..];
  }

  lemma MultisetCancel<T>(a: multiset<T>, b: multiset<T>, x: T)
    requires a + multiset{x} == b + multiset{x}
    ensures a == b
  {
    forall y ensures a[y] == b[y] {
      assert (a + multiset{x})[y] == a[y] + multiset{x}[y];
      assert (b + multiset{x})[y] == b[y] + multiset{x}[y];
    }
  }

  lemma OrdersRemoveAt(s: seq<MessageContent>, j: nat)
    requires j < |s|
    ensures Orders(s[..j] + s[j+1..]) == Orders(s)[..j] + Orders(s)[j+1..]
  {
    var t := s[..j] + s[j+1..];
    var o := Orders(s);
    assert |Orders(t)| == |o[..j] + o[j+1..]|;
    forall k | 0 <= k < |t| ensures Orders(t)[k] == (o[..j] + o[j+1..])[k] {
      if k < j {
        assert t[k] == s[k];
      } else {
        assert t[k] == s[k+1];
      }
    }
  }

  /** Equal multisets of messages have equal multisets of keys. */
  lemma {:induction false} MultisetOrders(a: seq<MessageContent>, b: seq<MessageContent>)
    requires multiset(a) == multiset(b)
    ensures multiset(Orders(a)) == multiset(Orders(b))
    decreases |a|
  {
    if |a| == 0 {
      assert |b| == |multiset(b)| == 0;
    } else {
      var x := a[0];
      var j := IndexOf(b, x);
      var a' := a[1..];
      var b' := b[..j] + b[j+1..];
      MultisetHead(a);
      MultisetRemoveAt(b, j);
      MultisetCancel(multiset(a'), multiset(b'), x);
      MultisetOrders(a', b');
      assert Orders(a') == Orders(a)[1..];
      OrdersRemoveAt(b, j);
      MultisetHead(Orders(a));
      MultisetRemoveAt(Orders(b), j);
    }
  }

  lemma AscendingTail(s: seq<int>)
    requires Ascending(s) && |s| > 0
    ensures Ascending(s[1..])
  {
    forall i, j | 0 <= i < j < |s| - 1 ensures s[1..][i] <= s[1..][j] {
      assert s[1..][i] == s[i+1] && s[1..][j] == s[j+1];
    }
  }

  /** Two ascending integer sequences holding the same multiset are equal. */
  lemma {:induction false} AscendingUnique(a: seq<int>, b: seq<int>)
    requires Ascending(a) && Ascending(b)
    requires multiset(a) == multiset(b)
    ensures a == b
    decreases |a|
  {
    if |a| == 0 {
      assert |b| == |multiset(b)| == 0;
    } else {
      assert |b| == |multiset(b)| == |multiset(a)| == |a|;
      var i := IndexOf(b, a[0]);
      var j := IndexOf(a, b[0]);
      assert b[0] <= b[i];
      assert a[0] <= a[j];
      MultisetHead(a);
      MultisetHead(b);
      MultisetCancel(multiset(a[1..]), multiset(b[1..]), a[0]);
      AscendingTail(a);
      AscendingTail(b);
      AscendingUnique(a[1..], b[1..]);
      assert a == [a[0]] + a[1..];
      assert b == [b[0]] + b[1..];
    }
  }

  /**
   * Any two ascending permutations of the same messages list the same keys
   * in the same order: sorting fixes everything except the order of ties.
   */
  lemma SortedOrdersUnique(a: seq<MessageContent>, b: seq<MessageContent>)
    requires SortedByOrder(a) && SortedByOrder(b)
    requires multiset(a) == multiset(b)
    ensures Orders(a) == Orders(b)
  {
    MultisetOrders(a, b);
    AscendingUnique(Orders(a), Orders(b));
  }

  /** When no two messages share a key, the ascending permutation is unique. */
  lemma {:induction false} SortedDistinctUnique(a: seq<MessageContent>, b: seq<MessageContent>)
    requires SortedByOrder(a) && SortedByOrder(b)
    requires multiset(a) == multiset(b)
    requires DistinctOrders(a)
    ensures a == b
  {
    SortedOrdersUnique(a, b);
    assert |a| == |multiset(a)| == |multiset(b)| == |b|;
    forall k | 0 <= k < |a|
      ensures a[k] == b[k]
    {
      assert b[k] in multiset(a);
      var i :| 0 <= i < |a| && a[i] == b[k];
      assert a[i].order == b[k].order == a[k].order;
    }
  }
}
