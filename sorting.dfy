/** A stable sort by a string key, the model of LINQ's `OrderBy (x => x.Name)`. */
module Sorting {
  import opened Wrappers
  import opened Strings

  /** Every earlier element's key is ordinally at most every later element's key. */
  ghost predicate SortedBy<T>(xs: seq<T>, key: T -> string)
  {
    forall i, j :: 0 <= i < j < |xs| ==> Le(key(xs[i]), key(xs[j]))
  }

  /** Two sorted sequences, every key of the first at most every key of the second, make a sorted sequence. */
  lemma SortedByAppend<T>(a: seq<T>, b: seq<T>, key: T -> string)
    requires SortedBy(a, key) && SortedBy(b, key)
    requires forall x, y :: x in a && y in b ==> Le(key(x), key(y))
    ensures SortedBy(a + b, key)
  {
    var r := a + b;
    forall i, j | 0 <= i < j < |r| ensures Le(key(r[i]), key(r[j])) {
      if j < |a| {
        assert r[i] == a[i] && r[j] == a[j];
      } else if i < |a| {
        assert r[i] in a && r[j] in b;
      } else {
        assert r[i] == b[i - |a|] && r[j] == b[j - |a|];
      }
    }
  }

  /** Inserts `x` before the first element whose key is not smaller (so equal keys keep `x` first). */
  function Insert<T>(x: T, xs: seq<T>, key: T -> string): (r: seq<T>)
    ensures multiset(r) == multiset(xs) + multiset{x}
    ensures |r| == |xs| + 1
  {
    if |xs| == 0 then [x]
    else if Le(key(x), key(xs[0])) then [x] + xs
    else
      assert xs == [xs[0]] + xs[1..];
      [xs[0]] + Insert(x, xs[1..], key)
  }

  lemma {:induction false} InsertSorted<T>(x: T, xs: seq<T>, key: T -> string)
    requires SortedBy(xs, key)
    ensures SortedBy(Insert(x, xs, key), key)
  {
    if |xs| == 0 {
    } else if Le(key(x), key(xs[0])) {
      forall j | 0 <= j < |xs| ensures Le(key(x), key(xs[j])) {
        if j > 0 {
          LeTransitive(key(x), key(xs[0]), key(xs[j]));
        }
      }
      ConsSorted(x, xs, key);
    } else {
      LeTotal(key(x), key(xs[0]));
      InsertSorted(x, xs[1..], key);
      HeadBelowRest(xs, key);
      var tail := Insert(x, xs[1..], key);
      InsertAbove(xs[0], x, xs[1..], key);
      ConsSorted(xs[0], tail, key);
    }
  }

  /** A head whose key is at most every key of a sorted tail keeps the sequence sorted. */
  lemma ConsSorted<T>(h: T, tail: seq<T>, key: T -> string)
    requires SortedBy(tail, key) && forall j :: 0 <= j < |tail| ==> Le(key(h), key(tail[j]))
    ensures SortedBy([h] + tail, key)
  {
    var r := [h] + tail;
    forall i, j | 0 <= i < j < |r| ensures Le(key(r[i]), key(r[j])) {
      assert r[j] == tail[j - 1];
      if i > 0 {
        assert r[i] == tail[i - 1];
      }
    }
  }

  /** In a sorted sequence the first key is at most every later one. */
  lemma HeadBelowRest<T>(xs: seq<T>, key: T -> string)
    requires |xs| > 0 && SortedBy(xs, key)
    ensures forall y :: y in xs[1..] ==> Le(key(xs[0]), key(y))
  {
    forall y | y in xs[1..] ensures Le(key(xs[0]), key(y)) {
      var k :| 0 <= k < |xs[1..]| && xs[1..][k] == y;
      assert xs[k + 1] == y;
    }
  }

  /** Inserting an element keeps every key above a bound that holds of the element and of the sequence. */
  lemma InsertAbove<T>(h: T, x: T, xs: seq<T>, key: T -> string)
    requires Le(key(h), key(x)) && forall y :: y in xs ==> Le(key(h), key(y))
    ensures forall j :: 0 <= j < |Insert(x, xs, key)| ==> Le(key(h), key(Insert(x, xs, key)[j]))
  {
    var r := Insert(x, xs, key);
    forall j | 0 <= j < |r| ensures Le(key(h), key(r[j])) {
      assert r[j] in multiset(r);
      if r[j] != x {
        assert r[j] in multiset(xs);
      }
    }
  }

  /** `xs` reordered so that keys ascend; elements with equal keys keep their input order. */
  function SortBy<T>(xs: seq<T>, key: T -> string): (r: seq<T>)
    ensures multiset(r) == multiset(xs)
    ensures |r| == |xs|
    ensures SortedBy(r, key)
  {
    if |xs| == 0 then []
    else
      assert xs == [xs[0]] + xs[1..];
      var rest := SortBy(xs[1..], key);
      InsertSorted(xs[0], rest, key);
      Insert(xs[0], rest, key)
  }

  lemma SortBySameElements<T>(xs: seq<T>, key: T -> string)
    ensures forall x :: x in SortBy(xs, key) <==> x in xs
  {
    forall x ensures x in SortBy(xs, key) <==> x in xs {
      SortByMembers(xs, key, x);
    }
  }

  lemma SortByMembers<T>(xs: seq<T>, key: T -> string, x: T)
    ensures x in SortBy(xs, key) <==> x in xs
  {
    var r := SortBy(xs, key);
    assert x in r <==> x in multiset(r);
    assert x in xs <==> x in multiset(xs);
  }

  /** The elements of `xs` whose key is `k`, in their order in `xs`. */
  function WithKey<T>(xs: seq<T>, key: T -> string, k: string): seq<T>
  {
    if |xs| == 0 then [] else (if key(xs[0]) == k then [xs[0]] else []) + WithKey(xs[1..], key, k)
  }

  /** Inserting `x` puts it ahead of every element with its key and leaves the others' order alone. */
  lemma {:induction false} InsertWithKey<T>(x: T, xs: seq<T>, key: T -> string, k: string)
    ensures WithKey(Insert(x, xs, key), key, k) == (if key(x) == k then [x] else []) + WithKey(xs, key, k)
  {
    var r := Insert(x, xs, key);
    if |xs| == 0 {
      assert r[1..] == [];
    } else if Le(key(x), key(xs[0])) {
      assert r[0] == x && r[1..] == xs;
    } else {
      LeTotal(key(x), key(x));
      assert key(xs[0]) != key(x);
      assert r[0] == xs[0] && r[1..] == Insert(x, xs[1..], key);
      InsertWithKey(x, xs[1..], key, k);
    }
  }

  /**
   * The sort is stable: for every key, the elements with that key appear in the result in the
   * order they had in the input.
   */
  lemma {:induction false} SortByStable<T>(xs: seq<T>, key: T -> string, k: string)
    ensures WithKey(SortBy(xs, key), key, k) == WithKey(xs, key, k)
  {
    if |xs| > 0 {
      SortByStable(xs[1..], key, k);
      InsertWithKey(xs[0], SortBy(xs[1..], key), key, k);
    }
  }

  /** An element of a non-empty sequence is in all but its last element, or is the last. */
  lemma InInitOrLast<T>(xs: seq<T>, x: T)
    requires |xs| > 0
    ensures x in xs <==> x in xs[..|xs| - 1] || x == xs[|xs| - 1]
  {
    assert xs == xs[..|xs| - 1] + [xs[|xs| - 1]];
  }

  /** The prefix through index `i` extends the prefix before it by that element. */
  lemma PrefixSnoc<T>(xs: seq<T>, i: nat)
    requires i < |xs|
    ensures xs[..i + 1] == xs[..i] + [xs[i]]
  {
  }

  /** No element occurs twice. */
  ghost predicate Distinct<T>(xs: seq<T>)
  {
    forall i, j :: 0 <= i < j < |xs| ==> xs[i] != xs[j]
  }

  /** A sequence has no repetition exactly when its multiset counts every element at most once. */
  lemma {:induction false} DistinctMultiset<T>(xs: seq<T>)
    ensures Distinct(xs) <==> forall x :: multiset(xs)[x] <= 1
    decreases |xs|
  {
    if |xs| > 0 {
      var init := xs[..|xs| - 1];
      var y := xs[|xs| - 1];
      assert xs == init + [y];
      DistinctMultiset(init);
      if Distinct(xs) {
        assert Distinct(init) by {
          forall i, j | 0 <= i < j < |init| ensures init[i] != init[j] {
            assert init[i] == xs[i] && init[j] == xs[j];
          }
        }
        assert y !in init by {
          forall i | 0 <= i < |init| ensures init[i] != y {
            assert init[i] == xs[i];
          }
        }
      }
      if forall x :: multiset(xs)[x] <= 1 {
        assert forall x :: multiset(init)[x] <= multiset(xs)[x];
        assert multiset(init)[y] == 0;
        forall i, j | 0 <= i < j < |xs| ensures xs[i] != xs[j] {
          if j == |xs| - 1 {
            assert xs[i] == init[i] && init[i] in multiset(init);
          } else {
            assert xs[i] == init[i] && xs[j] == init[j];
          }
        }
      }
    }
  }

  /** Sorting a sequence without repetitions gives one without repetitions. */
  lemma SortByDistinct<T>(xs: seq<T>, key: T -> string)
    requires Distinct(xs)
    ensures Distinct(SortBy(xs, key))
  {
    DistinctMultiset(xs);
    DistinctMultiset(SortBy(xs, key));
  }

  /** Some element of `xs` has key `k`. */
  predicate HasKey<T>(xs: seq<T>, key: T -> string, k: string)
  {
    exists i :: 0 <= i < |xs| && key(xs[i]) == k
  }

  ghost predicate DistinctKeys<T>(xs: seq<T>, key: T -> string)
  {
    forall i, j :: 0 <= i < j < |xs| ==> key(xs[i]) != key(xs[j])
  }

  /** `SortedList.Add`: fails when the key is already present, else inserts in key order. */
  function SortedAdd<T>(x: T, xs: seq<T>, key: T -> string): Option<seq<T>>
  {
    if HasKey(xs, key, key(x)) then None else Some(Insert(x, xs, key))
  }

  /** Adds every element of `xs` in turn to an empty sorted list; None once an Add fails. */
  function SortedAddAll<T>(xs: seq<T>, key: T -> string): Option<seq<T>>
    decreases |xs|
  {
    if |xs| == 0 then Some([])
    else
      match SortedAddAll(xs[..|xs| - 1], key)
      case None => None
      case Some(r) => SortedAdd(xs[|xs| - 1], r, key)
  }

  lemma HasKeyMultiset<T>(xs: seq<T>, ys: seq<T>, key: T -> string, k: string)
    requires multiset(xs) == multiset(ys)
    ensures HasKey(xs, key, k) <==> HasKey(ys, key, k)
  {
    if HasKey(xs, key, k) {
      var i :| 0 <= i < |xs| && key(xs[i]) == k;
      assert xs[i] in multiset(ys);
      var j :| 0 <= j < |ys| && ys[j] == xs[i];
    }
    if HasKey(ys, key, k) {
      var i :| 0 <= i < |ys| && key(ys[i]) == k;
      assert ys[i] in multiset(xs);
      var j :| 0 <= j < |xs| && xs[j] == ys[i];
    }
  }

  /** Once an add fails, adding more elements still fails. */
  lemma {:induction false} NoneStaysNone<T>(xs: seq<T>, i: nat, key: T -> string)
    requires i <= |xs|
    requires SortedAddAll(xs[..i], key) == None
    ensures SortedAddAll(xs, key) == None
    decreases |xs| - i
  {
    if i < |xs| {
      assert xs[..i + 1][..i] == xs[..i];
      NoneStaysNone(xs, i + 1, key);
    } else {
      assert xs[..i] == xs;
    }
  }

  /**
   * Filling a sorted list succeeds exactly when no two elements share a key, and then holds
   * every element once, in key order.
   */
  lemma {:induction false} SortedAddAllSpec<T>(xs: seq<T>, key: T -> string)
    ensures SortedAddAll(xs, key).Some? <==> DistinctKeys(xs, key)
    ensures SortedAddAll(xs, key).Some? ==>
      SortedBy(SortedAddAll(xs, key).value, key) && multiset(SortedAddAll(xs, key).value) == multiset(xs)
    decreases |xs|
  {
    if |xs| > 0 {
      var p := xs[..|xs| - 1];
      var x := xs[|xs| - 1];
      assert xs == p + [x];
      SortedAddAllSpec(p, key);
      if !DistinctKeys(p, key) {
        var i, j :| 0 <= i < j < |p| && key(p[i]) == key(p[j]);
        assert xs[i] == p[i] && xs[j] == p[j];
      } else {
        var r := SortedAddAll(p, key).value;
        HasKeyMultiset(r, p, key, key(x));
        if HasKey(p, key, key(x)) {
          var i :| 0 <= i < |p| && key(p[i]) == key(x);
          assert xs[i] == p[i];
        } else {
          InsertSorted(x, r, key);
          forall i, j | 0 <= i < j < |xs| ensures key(xs[i]) != key(xs[j]) {
            if j == |xs| - 1 {
              assert xs[i] == p[i];
            } else {
              assert xs[i] == p[i] && xs[j] == p[j];
            }
          }
        }
      }
    }
  }
}
