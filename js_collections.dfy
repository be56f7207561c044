// Models of the JavaScript collection built-ins the charts rely on:
// `Array.from(new Set(xs))` (de-duplication in insertion order), `flatMap`
// over lists of lists, `Array.prototype.find` and `Object.fromEntries`.

module JsCollections {

  /** `undefined` / `null` versus a present value. */
  datatype Option<T> = None | Some(value: T)

  predicate NoDuplicates<T(==)>(xs: seq<T>) {
    forall i, j :: 0 <= i < j < |xs| ==> xs[i] != xs[j]
  }

  /** Position of the first occurrence of `x` (what `xs.indexOf(x)` returns when `x` is present). */
  function FirstIndex<T(==)>(xs: seq<T>, x: T): (k: nat)
    requires x in xs
    ensures k < |xs| && xs[k] == x && x !in xs[..k]
  {
    if xs[0] == x then 0 else 1 + FirstIndex(xs[1..], x)
  }

  /** The first occurrence is the only position with nothing equal before it. */
  lemma FirstIndexUnique<T>(xs: seq<T>, x: T, k: nat)
    requires k < |xs| && xs[k] == x && x !in xs[..k]
    ensures FirstIndex(xs, x) == k
  {
  }

  /** Appending at the end does not move an earlier first occurrence. */
  lemma FirstIndexAppend<T>(xs: seq<T>, y: T, x: T)
    requires x in xs
    ensures x in xs + [y] && FirstIndex(xs + [y], x) == FirstIndex(xs, x)
  {
    var k := FirstIndex(xs, x);
    assert (xs + [y])[..k] == xs[..k];
    FirstIndexUnique(xs + [y], x, k);
  }

  /**
   * `Array.from(new Set(xs))`: a JavaScript Set remembers insertion order and
   * ignores an element it already holds, so the result keeps each element at
   * its first occurrence.
   */
  function Distinct<T(==)>(xs: seq<T>): (r: seq<T>)
    ensures NoDuplicates(r)
    ensures forall x :: x in r ==> x in xs
    ensures forall x :: x in xs ==> x in r
    ensures |r| <= |xs|
  {
    if xs == [] then []
    else
      var rest := Distinct(xs[..|xs| - 1]);
      assert xs == xs[..|xs| - 1] + [xs[|xs| - 1]];
      if xs[|xs| - 1] in rest then rest else rest + [xs[|xs| - 1]]
  }

  /** The de-duplicated list is ordered by first occurrence in the input. */
  lemma {:induction false} DistinctFirstOccurrenceOrder<T>(xs: seq<T>)
    ensures forall i, j :: 0 <= i < j < |Distinct(xs)| ==>
              FirstIndex(xs, Distinct(xs)[i]) < FirstIndex(xs, Distinct(xs)[j])
  {
    if xs != [] {
      var init, last := xs[..|xs| - 1], xs[|xs| - 1];
      assert xs == init + [last];
      DistinctFirstOccurrenceOrder(init);
      var rest := Distinct(init);
      forall y | y in init ensures FirstIndex(xs, y) == FirstIndex(init, y) {
        FirstIndexAppend(init, last, y);
      }
      if last !in rest {
        FirstIndexUnique(xs, last, |xs| - 1);
      }
    }
  }

  /** Supplies the term `r[0]` outside a branch whose facts would clash. */
  lemma HeadIsMember<T>(r: seq<T>)
    ensures |r| > 0 ==> r[0] in r
  {
  }

  /** Appending at the end moves no earlier first occurrence (all elements at once). */
  lemma FirstIndexAppendAll<T>(xs: seq<T>, y: T)
    ensures forall x :: x in xs ==> x in xs + [y] && FirstIndex(xs + [y], x) == FirstIndex(xs, x)
  {
    forall x | x in xs ensures x in xs + [y] && FirstIndex(xs + [y], x) == FirstIndex(xs, x) {
      FirstIndexAppend(xs, y, x);
    }
  }

  /**
   * In a list ordered by first occurrence in `init + [last]`, a `last` that is
   * new sits at the end, after exactly the elements of `init`.
   */
  lemma NewElementIsLast<T>(init: seq<T>, last: T, r: seq<T>)
    requires last !in init
    requires NoDuplicates(r)
    requires forall x :: x in r <==> x in init + [last]
    requires forall i, j :: 0 <= i < j < |r| ==>
               FirstIndex(init + [last], r[i]) < FirstIndex(init + [last], r[j])
    ensures |r| > 0 && r == r[..|r| - 1] + [last]
    ensures forall x :: x in r[..|r| - 1] <==> x in init
  {
    var xs := init + [last];
    FirstIndexUnique(xs, last, |xs| - 1);
    assert last in r;
    LastOccurrenceEndsOrder(xs, r, last);
    var r' := r[..|r| - 1];
    assert r == r' + [last];
    assert last !in r' by {
      forall q | 0 <= q < |r'| ensures r'[q] != last {
        assert r'[q] == r[q];
      }
    }
    forall x ensures x in r' <==> x in init {
      assert x in r <==> x in r' || x == last;
      assert x in xs <==> x in init || x == last;
    }
  }

  /** In an order by first occurrence, the element occurring first at the very end comes last, and only there. */
  lemma LastOccurrenceEndsOrder<T>(xs: seq<T>, r: seq<T>, last: T)
    requires last in r && last in xs && FirstIndex(xs, last) == |xs| - 1
    requires forall x :: x in r ==> x in xs
    requires forall i, j :: 0 <= i < j < |r| ==> FirstIndex(xs, r[i]) < FirstIndex(xs, r[j])
    ensures r[|r| - 1] == last
    ensures forall q :: 0 <= q < |r| - 1 ==> r[q] != last
  {
    forall q | 0 <= q < |r| - 1 ensures r[q] != last {
      assert FirstIndex(xs, r[q]) < FirstIndex(xs, r[|r| - 1]) < |xs|;
    }
    var p :| 0 <= p < |r| && r[p] == last;
    assert p == |r| - 1;
  }

  /**
   * The three properties of `Distinct` pin it down: any duplicate-free list
   * holding exactly the elements of `xs`, ordered by first occurrence, is
   * `Distinct(xs)`.
   */
  lemma {:induction false} DistinctUnique<T>(xs: seq<T>, r: seq<T>)
    requires NoDuplicates(r)
    requires forall x :: x in r <==> x in xs
    requires forall i, j :: 0 <= i < j < |r| ==> FirstIndex(xs, r[i]) < FirstIndex(xs, r[j])
    ensures r == Distinct(xs)
  {
    if xs == [] {
      HeadIsMember(r);
    } else {
      var init, last := xs[..|xs| - 1], xs[|xs| - 1];
      assert xs == init + [last];
      if last in init {
        assert forall x :: x in r <==> x in init;
        OrderCarriesToInit(init, last, r);
        DistinctUnique(init, r);
      } else {
        NewElementIsLast(init, last, r);
        var r' := r[..|r| - 1];
        assert forall i, j :: 0 <= i < j < |r'| ==> r'[i] == r[i] && r'[j] == r[j];
        OrderCarriesToInit(init, last, r');
        DistinctUnique(init, r');
      }
    }
  }

  /** An order by first occurrence in `init + [last]` among elements of `init` is one in `init`. */
  lemma OrderCarriesToInit<T>(init: seq<T>, last: T, r: seq<T>)
    requires forall x :: x in r ==> x in init
    requires forall i, j :: 0 <= i < j < |r| ==>
               FirstIndex(init + [last], r[i]) < FirstIndex(init + [last], r[j])
    ensures forall i, j :: 0 <= i < j < |r| ==> FirstIndex(init, r[i]) < FirstIndex(init, r[j])
  {
    FirstIndexAppendAll(init, last);
  }

  /** The flattening step of `flatMap`: the lists one after another. */
  function Flatten<T>(xss: seq<seq<T>>): (r: seq<T>)
    ensures forall x :: x in r ==> exists i :: 0 <= i < |xss| && x in xss[i]
    ensures forall i, x :: 0 <= i < |xss| && x in xss[i] ==> x in r
    ensures |xss| == 1 ==> r == xss[0]
  {
    if xss == [] then []
    else
      var init := xss[..|xss| - 1];
      var r := Flatten(init) + xss[|xss| - 1];
      assert forall i :: 0 <= i < |init| ==> init[i] == xss[i];
      r
  }

  /** Flattening is in order: the lists of `a` come before those of `b`. */
  lemma {:induction false} FlattenAppend<T>(a: seq<seq<T>>, b: seq<seq<T>>)
    ensures Flatten(a + b) == Flatten(a) + Flatten(b)
    decreases |b|
  {
    if b == [] {
      assert a + b == a;
    } else {
      var b' := b[..|b| - 1];
      assert (a + b)[..|a + b| - 1] == a + b';
      FlattenAppend(a, b');
    }
  }

  /** `xs.find(p)`: the first element satisfying `p`, or undefined. */
  function Find<T>(xs: seq<T>, p: T -> bool): (r: Option<T>)
    ensures r.None? <==> forall k :: 0 <= k < |xs| ==> !p(xs[k])
    ensures r.Some? ==> exists k :: 0 <= k < |xs| && xs[k] == r.value && p(xs[k]) &&
                                    forall m :: 0 <= m < k ==> !p(xs[m])
  {
    if xs == [] then None
    else if p(xs[0]) then Some(xs[0])
    else
      var r := Find(xs[1..], p);
      assert forall k :: 1 <= k < |xs| ==> xs[k] == xs[1..][k - 1];
      r
  }

  /**
   * `Object.fromEntries(entries)`: a later entry with the same key overwrites an
   * earlier one.
   */
  function FromEntries<K, V>(entries: seq<(K, V)>): (m: map<K, V>)
    ensures forall k :: k in m ==> exists i :: 0 <= i < |entries| && entries[i].0 == k
    ensures forall i :: 0 <= i < |entries| ==> entries[i].0 in m
  {
    if entries == [] then map[]
    else
      var init := entries[..|entries| - 1];
      var last := entries[|entries| - 1];
      assert forall i :: 0 <= i < |init| ==> init[i] == entries[i];
      FromEntries(init)[last.0 := last.1]
  }

  /** The value stored under a key is that of its last entry. */
  lemma {:induction false} FromEntriesLastWins<K, V>(entries: seq<(K, V)>, i: nat)
    requires i < |entries|
    requires forall j :: i < j < |entries| ==> entries[j].0 != entries[i].0
    ensures entries[i].0 in FromEntries(entries) && FromEntries(entries)[entries[i].0] == entries[i].1
  {
    if i < |entries| - 1 {
      var init := entries[..|entries| - 1];
      FromEntriesLastWins(init, i);
    }
  }
}
