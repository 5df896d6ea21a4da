/** The notification queue: result announcements, newest first, each
    removable on its own by id. */
module Notices {

  /** One snackbar announcing the outcome of a round. */
  datatype NotificationItem = NotificationItem(id: string, win: bool, detail: string)

  /** A new notification goes in front of all earlier ones; there is no cap. */
  function Push(n: NotificationItem, ns: seq<NotificationItem>): (r: seq<NotificationItem>)
    ensures |r| == |ns| + 1
    ensures r[0] == n && r[1..] == ns
  {
    [n] + ns
  }

  /** Every notification whose id is not `id`, in their original order
      (the behaviour of filter(n => n.id !== id)). */
  function RemoveId(ns: seq<NotificationItem>, id: string): (r: seq<NotificationItem>)
    ensures |r| <= |ns|
    ensures forall n :: n in r <==> n in ns && n.id != id
    decreases |ns|
  {
    if ns == [] then []
    else if ns[0].id == id then RemoveId(ns[1..], id)
    else [ns[0]] + RemoveId(ns[1..], id)
  }

  predicate HasId(ns: seq<NotificationItem>, id: string) {
    exists n :: n in ns && n.id == id
  }

  /** a keeps some of the elements of b, in the order b has them. */
  ghost predicate IsSubsequence<T>(a: seq<T>, b: seq<T>)
    decreases |b|
  {
    if a == [] then true
    else if b == [] then false
    else (a[0] == b[0] && IsSubsequence(a[1..], b[1..])) || IsSubsequence(a, b[1..])
  }

  /** Removal keeps the surviving notifications in their original order, drops
      every copy that has the id and keeps every copy of the others. */
  lemma {:induction false} RemoveIdKeepsOrder(ns: seq<NotificationItem>, id: string)
    ensures IsSubsequence(RemoveId(ns, id), ns)
    ensures forall n :: multiset(RemoveId(ns, id))[n] == if n.id == id then 0 else multiset(ns)[n]
    decreases |ns|
  {
    if ns != [] {
      RemoveIdKeepsOrder(ns[1..], id);
      assert ns == [ns[0]] + ns[1..];
      var r := RemoveId(ns, id);
      if ns[0].id != id {
        assert r[0] == ns[0] && r[1..] == RemoveId(ns[1..], id);
      }
    }
  }

  /** Removal distributes over concatenation. */
  lemma {:induction false} RemoveIdAppend(a: seq<NotificationItem>, b: seq<NotificationItem>, id: string)
    ensures RemoveId(a + b, id) == RemoveId(a, id) + RemoveId(b, id)
    decreases |a|
  {
    if a == [] {
      assert a + b == b;
    } else {
      assert (a + b)[1..] == a[1..] + b;
      RemoveIdAppend(a[1..], b, id);
    }
  }

  /** Removing an id that no notification carries changes nothing. */
  lemma {:induction false} RemoveAbsent(ns: seq<NotificationItem>, id: string)
    requires !HasId(ns, id)
    ensures RemoveId(ns, id) == ns
    decreases |ns|
  {
    if ns != [] {
      assert ns[0] in ns;
      assert !HasId(ns[1..], id) by {
        forall n | n in ns[1..] ensures n.id != id { assert n in ns; }
      }
      RemoveAbsent(ns[1..], id);
      assert ns == [ns[0]] + ns[1..];
    }
  }

  /** Dismissing twice (say by the user and then by the auto-hide timer) is
      the same as dismissing once. */
  lemma RemoveIdIdempotent(ns: seq<NotificationItem>, id: string)
    ensures RemoveId(RemoveId(ns, id), id) == RemoveId(ns, id)
  {
    RemoveAbsent(RemoveId(ns, id), id);
  }

  /** Dismissals of two ids may happen in either order. */
  lemma {:induction false} RemoveIdCommutes(ns: seq<NotificationItem>, a: string, b: string)
    ensures RemoveId(RemoveId(ns, a), b) == RemoveId(RemoveId(ns, b), a)
    decreases |ns|
  {
    if ns != [] {
      RemoveIdCommutes(ns[1..], a, b);
      var x := ns[0];
      var tailA, tailB := RemoveId(ns[1..], a), RemoveId(ns[1..], b);
      if x.id != a {
        assert RemoveId(ns, a) == [x] + tailA;
        assert ([x] + tailA)[1..] == tailA;
      }
      if x.id != b {
        assert RemoveId(ns, b) == [x] + tailB;
        assert ([x] + tailB)[1..] == tailB;
      }
    }
  }

  /** Dismissing a freshly pushed notification gives back the list it was
      pushed onto. */
  lemma RemovePushed(n: NotificationItem, ns: seq<NotificationItem>)
    requires !HasId(ns, n.id)
    ensures RemoveId(Push(n, ns), n.id) == ns
  {
    assert Push(n, ns)[1..] == ns;
    RemoveAbsent(ns, n.id);
  }
}
