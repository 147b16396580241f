/**
 * Orderings and the stable sort behind PHP's `sort`, `rsort`, `asort` and
 * `arsort`: elements are compared with a total preorder, and ties keep their
 * original relative order. The sort is modelled on positions: it computes the
 * order in which the positions of the list are visited.
 */
module Ordering {

  /** A comparison "a sorts no later than b" that is total and transitive. */
  ghost predicate TotalPreorder<T(!new)>(le: (T, T) -> bool) {
    && (forall a, b :: le(a, b) || le(b, a))
    && (forall a, b, c :: le(a, b) && le(b, c) ==> le(a, c))
  }

  /** The reverse comparison, used for `rsort` and `arsort`. */
  function Flip<T>(le: (T, T) -> bool): (T, T) -> bool {
    (a, b) => le(b, a)
  }

  lemma FlipTotalPreorder<T(!new)>(le: (T, T) -> bool)
    requires TotalPreorder(le)
    ensures TotalPreorder(Flip(le))
  {
  }

  ghost predicate Sorted<T>(s: seq<T>, le: (T, T) -> bool) {
    forall i, j :: 0 <= i < j < |s| ==> le(s[i], s[j])
  }

  /**
   * Position `i` of `keys` goes no later than position `j`: its key sorts
   * strictly earlier, or the keys tie and `i` came first.
   */
  predicate Before<T>(keys: seq<T>, le: (T, T) -> bool, i: nat, j: nat) {
    i < |keys| && j < |keys| && le(keys[i], keys[j]) && (le(keys[j], keys[i]) ==> i <= j)
  }

  lemma BeforeTotal<T(!new)>(keys: seq<T>, le: (T, T) -> bool, i: nat, j: nat)
    requires TotalPreorder(le) && i < |keys| && j < |keys|
    ensures Before(keys, le, i, j) || Before(keys, le, j, i)
  {
  }

  lemma BeforeTransitive<T(!new)>(keys: seq<T>, le: (T, T) -> bool, i: nat, j: nat, k: nat)
    requires TotalPreorder(le) && Before(keys, le, i, j) && Before(keys, le, j, k)
    ensures Before(keys, le, i, k)
  {
  }

  lemma BeforeAntisymmetric<T>(keys: seq<T>, le: (T, T) -> bool, i: nat, j: nat)
    requires Before(keys, le, i, j) && Before(keys, le, j, i)
    ensures i == j
  {
  }

  /** The positions 0, 1, …, n - 1 in order. */
  function Iota(n: nat): (r: seq<nat>)
    ensures |r| == n && forall i :: 0 <= i < n ==> r[i] == i
  {
    if n == 0 then [] else Iota(n - 1) + [n - 1]
  }

  /** Every pair of entries of `order` is in `Before` order. */
  predicate OrderedBy<T>(keys: seq<T>, le: (T, T) -> bool, order: seq<nat>) {
    forall p, q :: 0 <= p < q < |order| ==> Before(keys, le, order[p], order[q])
  }

  /** `order` lists every position of `keys` once, in stable sorted order. */
  ghost predicate IsStableOrder<T>(keys: seq<T>, le: (T, T) -> bool, order: seq<nat>) {
    multiset(order) == multiset(Iota(|keys|)) && OrderedBy(keys, le, order)
  }

  /**
   * `order` lists every position of `keys` once, visiting the keys in
   * non-decreasing order; entries that tie may come in any order.
   */
  ghost predicate IsSortedOrder<T>(keys: seq<T>, le: (T, T) -> bool, order: seq<nat>) {
    && multiset(order) == multiset(Iota(|keys|))
    && InRange(order, |keys|)
    && forall p, q :: 0 <= p < q < |order| ==> le(keys[order[p]], keys[order[q]])
  }

  /** Every entry of a list of positions of `0, 1, …, n - 1` is below `n`. */
  lemma IotaInRange(order: seq<nat>, n: nat)
    requires multiset(order) == multiset(Iota(n))
    ensures InRange(order, n)
  {
    forall p | 0 <= p < |order| ensures order[p] < n {
      assert order[p] in multiset(Iota(n));
    }
  }

  /** A stable order is in particular a sorted one. */
  lemma StableIsSorted<T>(keys: seq<T>, le: (T, T) -> bool, order: seq<nat>)
    requires IsStableOrder(keys, le, order)
    ensures IsSortedOrder(keys, le, order)
  {
    IotaInRange(order, |keys|);
  }

  /**
   * The stable sort of the positions of `keys`: insertion sort on an array
   * that starts as 0, 1, …, n - 1.
   */
  method SortPositions<T(!new)>(keys: seq<T>, le: (T, T) -> bool) returns (order: seq<nat>)
    requires TotalPreorder(le)
    ensures IsStableOrder(keys, le, order)
  {
    var n := |keys|;
    var a := new nat[n](k => k);
    assert a[..] == Iota(n);
    for i := 0 to n
      invariant multiset(a[..]) == multiset(Iota(n))
      invariant InRange(a[..], n)
      invariant OrderedBy(keys, le, a[..i])
    {
      Insert(keys, le, a, i);
    }
    order := a[..];
    assert order == a[..n];
  }

  /** Moves `a[i]` down past every entry it goes before, extending the sorted prefix by one. */
  method Insert<T(!new)>(keys: seq<T>, le: (T, T) -> bool, a: array<nat>, i: nat)
    requires TotalPreorder(le) && i < a.Length == |keys|
    requires InRange(a[..], a.Length)
    requires OrderedBy(keys, le, a[..i])
    modifies a
    ensures multiset(a[..i + 1]) == multiset(old(a[..i + 1]))
    ensures a[i + 1..] == old(a[i + 1..])
    ensures multiset(a[..]) == multiset(old(a[..]))
    ensures InRange(a[..], a.Length)
    ensures OrderedBy(keys, le, a[..i + 1])
  {
    ghost var s0 := a[..];
    var j := Sink(keys, le, a, i);
    Inserted(keys, le, s0, i, j);
  }

  /**
   * The loop of `Insert`: swaps the entry at `i` down while its left
   * neighbour does not go before it, and returns where it stopped.
   */
  method Sink<T(!new)>(keys: seq<T>, le: (T, T) -> bool, a: array<nat>, i: nat) returns (j: nat)
    requires i < a.Length
    modifies a
    ensures j <= i && a[..] == Moved(old(a[..]), i, j)
    ensures forall q :: j <= q < i ==> !Before(keys, le, old(a[q]), old(a[i]))
    ensures j > 0 ==> Before(keys, le, old(a[j - 1]), old(a[i]))
  {
    ghost var s0 := a[..];
    j := i;
    assert a[..] == Moved(s0, i, i) by {
      assert s0 == s0[..i] + [s0[i]] + s0[i + 1..];
    }
    while j > 0 && !Before(keys, le, a[j - 1], a[j])
      invariant j <= i && a[..] == Moved(s0, i, j)
      invariant forall q :: j <= q < i ==> !Before(keys, le, s0[q], s0[i])
    {
      MoveStep(s0, i, j);
      Swap(a, j);
      j := j - 1;
    }
  }

  /** Exchanges `a[j - 1]` and `a[j]`. */
  method Swap(a: array<nat>, j: nat)
    requires 0 < j < a.Length
    modifies a
    ensures a[..] == old(a[..])[j - 1 := old(a[j])][j := old(a[j - 1])]
  {
    a[j - 1], a[j] := a[j], a[j - 1];
  }

  /** Every entry is a position below `n`. */
  predicate InRange(s: seq<nat>, n: nat) {
    forall p :: 0 <= p < |s| ==> s[p] < n
  }

  /**
   * `s` with its entry at `i` moved down to `j`, the entries from `j` to
   * `i - 1` each shifted up by one: the state of `Insert` after it has
   * swapped `a[i]` down to `j`.
   */
  function Moved(s: seq<nat>, i: nat, j: nat): (r: seq<nat>)
    requires j <= i < |s|
    ensures |r| == |s| && r[j] == s[i]
    ensures j > 0 ==> r[j - 1] == s[j - 1]
  {
    s[..j] + [s[i]] + s[j..i] + s[i + 1..]
  }

  /** One swap of `Insert` moves the entry one place further down. */
  lemma MoveStep(s: seq<nat>, i: nat, j: nat)
    requires 0 < j <= i < |s|
    ensures Moved(s, i, j)[j - 1 := s[i]][j := s[j - 1]] == Moved(s, i, j - 1)
  {
    var t := Moved(s, i, j)[j - 1 := s[i]][j := s[j - 1]];
    var u := Moved(s, i, j - 1);
    forall k | 0 <= k < |s| ensures t[k] == u[k] {
      if k < j - 1 {
      } else if k == j - 1 {
      } else if k == j {
      } else if k <= i {
        assert t[k] == s[k - 1] && u[k] == s[k - 1];
      } else {
        assert t[k] == s[k] && u[k] == s[k];
      }
    }
  }

  /** Where `Insert` leaves the array, in the terms of its contract. */
  lemma Inserted<T(!new)>(keys: seq<T>, le: (T, T) -> bool, s: seq<nat>, i: nat, j: nat)
    requires TotalPreorder(le) && j <= i < |s| == |keys| && InRange(s, |s|) && OrderedBy(keys, le, s[..i])
    requires forall q :: j <= q < i ==> !Before(keys, le, s[q], s[i])
    requires j > 0 ==> Before(keys, le, s[j - 1], s[i])
    ensures multiset(Moved(s, i, j)[..i + 1]) == multiset(s[..i + 1])
    ensures Moved(s, i, j)[i + 1..] == s[i + 1..]
    ensures multiset(Moved(s, i, j)) == multiset(s)
    ensures InRange(Moved(s, i, j), |s|)
    ensures OrderedBy(keys, le, Moved(s, i, j)[..i + 1])
  {
    MovedPositions(s, i, j, |s|);
    MovedOrdered(keys, le, s, i, j);
  }

  /** Moving an entry down keeps the entries after `i` and rearranges those up to `i`. */
  lemma MovedPositions(s: seq<nat>, i: nat, j: nat, n: nat)
    requires j <= i < |s| && InRange(s, n)
    ensures Moved(s, i, j)[i + 1..] == s[i + 1..]
    ensures multiset(Moved(s, i, j)[..i + 1]) == multiset(s[..i + 1])
    ensures multiset(Moved(s, i, j)) == multiset(s)
    ensures InRange(Moved(s, i, j), n)
  {
    var r := Moved(s, i, j);
    assert r[..i + 1] == s[..j] + [s[i]] + s[j..i];
    assert r[i + 1..] == s[i + 1..];
    assert s[..i + 1] == s[..j] + s[j..i] + [s[i]];
    assert r == r[..i + 1] + r[i + 1..];
    assert s == s[..i + 1] + s[i + 1..];
    forall p | 0 <= p < |r| ensures r[p] < n {
      assert r[p] in multiset(s);
    }
  }

  /**
   * When `Insert` stops — the moved entry goes before every entry it passed
   * and after its new left neighbour — the prefix up to `i` is ordered.
   */
  lemma MovedOrdered<T(!new)>(keys: seq<T>, le: (T, T) -> bool, s: seq<nat>, i: nat, j: nat)
    requires TotalPreorder(le) && j <= i < |s| && OrderedBy(keys, le, s[..i])
    requires InRange(s, |keys|)
    requires forall q :: j <= q < i ==> !Before(keys, le, s[q], s[i])
    requires j > 0 ==> Before(keys, le, s[j - 1], s[i])
    ensures OrderedBy(keys, le, Moved(s, i, j)[..i + 1])
  {
    var r := Moved(s, i, j)[..i + 1];
    forall p, q | 0 <= p < q < |r| ensures Before(keys, le, r[p], r[q]) {
      var p' := if p < j then p else if p == j then i else p - 1;
      var q' := if q < j then q else if q == j then i else q - 1;
      assert r[p] == s[p'] && r[q] == s[q'];
      if p == j {
        BeforeTotal(keys, le, s[q'], s[i]);
      } else if q == j {
        if p < j - 1 {
          assert s[p] == s[..i][p] && s[j - 1] == s[..i][j - 1];
          BeforeTransitive(keys, le, s[p], s[j - 1], s[i]);
        }
      } else {
        assert s[p'] == s[..i][p'] && s[q'] == s[..i][q'];
      }
    }
  }

  /** `s` read from its last entry to its first. */
  function Reversed<E>(s: seq<E>): (r: seq<E>)
    ensures |r| == |s|
    ensures forall i :: 0 <= i < |s| ==> r[i] == s[|s| - 1 - i]
  {
    seq(|s|, i requires 0 <= i < |s| => s[|s| - 1 - i])
  }

  lemma {:induction false} ReversedMultiset<E>(s: seq<E>)
    ensures multiset(Reversed(s)) == multiset(s)
    decreases |s|
  {
    if s != [] {
      var t := s[1..];
      ReversedMultiset(t);
      assert Reversed(s) == Reversed(t) + [s[0]];
      assert s == [s[0]] + t;
    }
  }

  /**
   * `rsort` against `sort`: a sorted order of the positions, read backwards,
   * is a sorted order for the reversed comparison.
   */
  lemma ReversedSortedOrder<T>(keys: seq<T>, le: (T, T) -> bool, order: seq<nat>)
    requires IsSortedOrder(keys, le, order)
    ensures IsSortedOrder(keys, Flip(le), Reversed(order))
  {
    ReversedMultiset(order);
    var r := Reversed(order);
    forall p, q | 0 <= p < q < |r| ensures Flip(le)(keys[r[p]], keys[r[q]]) {
      assert r[p] == order[|order| - 1 - p] && r[q] == order[|order| - 1 - q];
    }
  }

  /** Two stable orders of the same keys are the same: the sort is deterministic. */
  lemma {:induction false} OrderedUnique<T>(keys: seq<T>, le: (T, T) -> bool, s: seq<nat>, t: seq<nat>)
    requires multiset(s) == multiset(t) && OrderedBy(keys, le, s) && OrderedBy(keys, le, t)
    ensures s == t
    decreases |s|
  {
    if s == [] {
      assert |multiset(t)| == 0;
    } else {
      Tails(keys, le, s, t);
      OrderedUnique(keys, le, s[1..], t[1..]);
      assert s == [s[0]] + s[1..] && t == [t[0]] + t[1..];
    }
  }

  /** Two stable orders of the same keys start alike, and what follows are again two such orders. */
  lemma Tails<T>(keys: seq<T>, le: (T, T) -> bool, s: seq<nat>, t: seq<nat>)
    requires s != [] && multiset(s) == multiset(t) && OrderedBy(keys, le, s) && OrderedBy(keys, le, t)
    ensures t != [] && s[0] == t[0] && multiset(s[1..]) == multiset(t[1..])
    ensures OrderedBy(keys, le, s[1..]) && OrderedBy(keys, le, t[1..])
  {
    HeadsAgree(keys, le, s, t);
    TailMultiset(s);
    TailMultiset(t);
    TailOrdered(keys, le, s);
    TailOrdered(keys, le, t);
  }

  lemma HeadsAgree<T>(keys: seq<T>, le: (T, T) -> bool, s: seq<nat>, t: seq<nat>)
    requires s != [] && multiset(s) == multiset(t) && OrderedBy(keys, le, s) && OrderedBy(keys, le, t)
    ensures t != [] && s[0] == t[0]
  {
    assert s[0] in multiset(s);
    assert t != [] by { assert |multiset(t)| == |s|; }
    assert t[0] in multiset(t);
    var m :| 0 <= m < |t| && t[m] == s[0];
    var m' :| 0 <= m' < |s| && s[m'] == t[0];
    if m != 0 && m' != 0 {
      BeforeAntisymmetric(keys, le, s[0], t[0]);
    }
  }

  lemma TailMultiset(s: seq<nat>)
    requires s != []
    ensures multiset(s[1..]) == multiset(s) - multiset{s[0]}
  {
    assert s == [s[0]] + s[1..];
  }

  lemma TailOrdered<T>(keys: seq<T>, le: (T, T) -> bool, s: seq<nat>)
    requires s != [] && OrderedBy(keys, le, s)
    ensures OrderedBy(keys, le, s[1..])
  {
    var s' := s[1..];
    forall p, q | 0 <= p < q < |s'| ensures Before(keys, le, s'[p], s'[q]) {
      assert s'[p] == s[p + 1] && s'[q] == s[q + 1];
    }
  }

  lemma StableOrderUnique<T>(keys: seq<T>, le: (T, T) -> bool, s: seq<nat>, t: seq<nat>)
    requires IsStableOrder(keys, le, s) && IsStableOrder(keys, le, t)
    ensures s == t
  {
    OrderedUnique(keys, le, s, t);
  }
}
