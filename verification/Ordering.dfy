/** The stable sort of the standard library: the positions of a list ordered by key, equal keys in
    their original order. */
module Ordering {

  /** Code-point order on strings. */
  predicate Less(a: string, b: string) {
    b != "" && (a == "" || a[0] < b[0] || (a[0] == b[0] && Less(a[1..], b[1..])))
  }

  lemma {:induction false} LessTotal(a: string, b: string)
    ensures Less(a, b) || Less(b, a) || a == b
    ensures !(Less(a, b) && Less(b, a)) && !Less(a, a)
  {
    if a != "" && b != "" && a[0] == b[0] {
      LessTotal(a[1..], b[1..]);
    }
    if a != "" {
      LessTotal(a[1..], a[1..]);
    }
  }

  /** The first place where the strings differ decides, and a proper prefix comes first. */
  predicate DiffersAt(a: string, b: string, k: nat) {
    k <= |a| && k < |b| && a[..k] == b[..k] && (k == |a| || a[k] < b[k])
  }

  lemma SameHead(a: string, b: string, k: nat)
    requires 0 < k <= |a| && k <= |b| && a[..k] == b[..k]
    ensures a[0] == b[0]
  {
    assert a[0] == a[..k][0] && b[0] == b[..k][0];
  }

  lemma {:induction false} LessExactly(a: string, b: string)
    ensures Less(a, b) <==> exists k: nat :: DiffersAt(a, b, k)
  {
    if a != "" && b != "" && a[0] == b[0] {
      LessExactly(a[1..], b[1..]);
      if k: nat :| DiffersAt(a[1..], b[1..], k) {
        assert a[..k + 1] == [a[0]] + a[1..][..k] && b[..k + 1] == [b[0]] + b[1..][..k];
        assert DiffersAt(a, b, k + 1);
      }
      if k: nat :| DiffersAt(a, b, k) {
        assert k > 0 ==> a[1..][..k - 1] == a[..k][1..] && b[1..][..k - 1] == b[..k][1..];
        assert k > 0 && DiffersAt(a[1..], b[1..], k - 1);
      }
    } else {
      if Less(a, b) {
        assert DiffersAt(a, b, 0);
      }
      if k: nat :| DiffersAt(a, b, k) {
        if k > 0 {
          SameHead(a, b, k);
        }
      }
    }
  }

  lemma {:induction false} LessTransitive(a: string, b: string, c: string)
    requires Less(a, b) && Less(b, c)
    ensures Less(a, c)
  {
    if a != "" && a[0] == b[0] && b[0] == c[0] {
      LessTransitive(a[1..], b[1..], c[1..]);
    }
  }

  /** Position i comes before position j. */
  predicate Before(keys: seq<string>, i: nat, j: nat)
    requires i < |keys| && j < |keys|
  {
    Less(keys[i], keys[j]) || (keys[i] == keys[j] && i < j)
  }

  lemma BeforeTransitive(keys: seq<string>, i: nat, j: nat, k: nat)
    requires i < |keys| && j < |keys| && k < |keys|
    requires Before(keys, i, j) && Before(keys, j, k)
    ensures Before(keys, i, k)
  {
    if Less(keys[i], keys[j]) && Less(keys[j], keys[k]) {
      LessTransitive(keys[i], keys[j], keys[k]);
    }
  }

  predicate Positions(keys: seq<string>, order: seq<nat>) {
    forall a | 0 <= a < |order| :: order[a] < |keys|
  }

  predicate Sorted(keys: seq<string>, order: seq<nat>)
    requires Positions(keys, order)
  {
    forall a, b | 0 <= a < b < |order| :: Before(keys, order[a], order[b])
  }

  function Insert(keys: seq<string>, i: nat, order: seq<nat>): (r: seq<nat>)
    requires i < |keys| && Positions(keys, order)
    ensures multiset(r) == multiset(order) + multiset{i}
    ensures |r| == |order| + 1 && Positions(keys, r)
  {
    if order == [] || Before(keys, i, order[0]) then [i] + order
    else
      assert order == [order[0]] + order[1..];
      [order[0]] + Insert(keys, i, order[1..])
  }

  /** The first n positions in sorted order. */
  function StableOrder(keys: seq<string>, n: nat): (r: seq<nat>)
    requires n <= |keys|
    ensures |r| == n && Positions(keys, r)
  {
    if n == 0 then [] else Insert(keys, n - 1, StableOrder(keys, n - 1))
  }

  lemma {:induction false} InsertSorted(keys: seq<string>, i: nat, order: seq<nat>)
    requires i < |keys| && Positions(keys, order) && Sorted(keys, order)
    requires forall a | 0 <= a < |order| :: order[a] != i
    ensures Sorted(keys, Insert(keys, i, order))
  {
    var r := Insert(keys, i, order);
    if order != [] && Before(keys, i, order[0]) {
      forall b | 0 < b < |r| ensures Before(keys, i, r[b]) {
        if b > 1 {
          BeforeTransitive(keys, i, order[0], order[b - 1]);
        }
      }
    } else if order != [] {
      LessTotal(keys[i], keys[order[0]]);
      var rest := Insert(keys, i, order[1..]);
      InsertSorted(keys, i, order[1..]);
      forall b | 0 < b < |r| ensures Before(keys, order[0], r[b]) {
        assert r[b] == rest[b - 1] && r[b] in multiset(rest);
      }
    }
  }

  lemma InsertMembers(keys: seq<string>, i: nat, order: seq<nat>, x: nat)
    requires i < |keys| && Positions(keys, order)
    ensures x in Insert(keys, i, order) <==> x == i || x in order
  {
  }

  lemma {:induction false} StableOrderMember(keys: seq<string>, n: nat, i: nat)
    requires n <= |keys|
    ensures i in StableOrder(keys, n) <==> i < n
  {
    hide Insert, Before, Positions;
    if n > 0 {
      StableOrderMember(keys, n - 1, i);
      InsertMembers(keys, n - 1, StableOrder(keys, n - 1), i);
    }
  }

  lemma StableOrderMembers(keys: seq<string>, n: nat)
    requires n <= |keys|
    ensures forall i: nat :: i in StableOrder(keys, n) <==> i < n
  {
    forall i: nat ensures i in StableOrder(keys, n) <==> i < n {
      StableOrderMember(keys, n, i);
    }
  }

  lemma LaterPositionIsNew(keys: seq<string>, n: nat)
    requires n <= |keys|
    ensures forall a | 0 <= a < n :: StableOrder(keys, n)[a] != n
  {
    StableOrderMembers(keys, n);
    hide StableOrder;
    var order := StableOrder(keys, n);
    assert forall a | 0 <= a < n :: order[a] in order;
  }

  lemma {:induction false} StableOrderSorted(keys: seq<string>, n: nat)
    requires n <= |keys|
    ensures Sorted(keys, StableOrder(keys, n))
  {
    hide Insert, Before;
    if n > 0 {
      StableOrderSorted(keys, n - 1);
      LaterPositionIsNew(keys, n - 1);
      InsertSorted(keys, n - 1, StableOrder(keys, n - 1));
    }
  }

  lemma SortedDistinct(keys: seq<string>, order: seq<nat>)
    requires Positions(keys, order) && Sorted(keys, order)
    ensures forall a, b | 0 <= a < b < |order| :: order[a] != order[b]
  {
    forall a, b | 0 <= a < b < |order| ensures order[a] != order[b] {
      LessTotal(keys[order[a]], keys[order[b]]);
    }
  }
}
