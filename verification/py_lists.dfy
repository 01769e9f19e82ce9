/** The Python list operations the validator relies on: `list.count`, the
    filtering comprehension `[y for y in xs if y != x]`, `set(xs)` and
    `list(range(a, b))`, with the facts relating them. */
module PyLists {

  /** Python's `xs.count(x)`: how many positions of `xs` hold `x`. */
  function Count<T(==)>(xs: seq<T>, x: T): (n: nat)
    ensures n > 0 <==> x in xs
  {
    multiset(xs)[x]
  }

  /** `x` sits at two different positions of `xs`. */
  predicate Repeats<T(==)>(xs: seq<T>, x: T) {
    exists i, j :: 0 <= i < j < |xs| && xs[i] == x && xs[j] == x
  }

  /** No element of `xs` sits at two different positions. */
  predicate NoDuplicates<T(==)>(xs: seq<T>) {
    forall i, j :: 0 <= i < j < |xs| ==> xs[i] != xs[j]
  }

  /** Python's `set(xs)`. */
  function Elems<T(==)>(xs: seq<T>): set<T> {
    set x | x in xs
  }

  /** `[y for y in xs if y != x]`: every `x` dropped, everything else kept in order. */
  function Without<T(==,!new)>(xs: seq<T>, x: T): (r: seq<T>)
    ensures x !in r
    ensures forall y :: y != x ==> multiset(r)[y] == multiset(xs)[y]
    ensures |r| == |xs| - Count(xs, x)
    ensures x !in xs ==> r == xs
  {
    if |xs| == 0 then []
    else
      assert xs == [xs[0]] + xs[1..];
      if xs[0] == x then Without(xs[1..], x) else [xs[0]] + Without(xs[1..], x)
  }

  /** The filter works piece by piece: filtering a concatenation filters
      each part and keeps the parts in order. With `Without([y], x)` being
      `[]` or `[y]`, this fixes the order of the result. */
  lemma {:induction false} WithoutConcat<T(!new)>(a: seq<T>, b: seq<T>, x: T)
    ensures Without(a + b, x) == Without(a, x) + Without(b, x)
    decreases |a|
  {
    if |a| == 0 {
      assert a + b == b && Without(a, x) == [];
    } else {
      var head: seq<T> := if a[0] == x then [] else [a[0]];
      var t := a[1..];
      assert a == [a[0]] + t && a + b == [a[0]] + (t + b);
      WithoutCons(a[0], t + b, x);
      WithoutCons(a[0], t, x);
      WithoutConcat(t, b, x);
      var wt, wb := Without(t, x), Without(b, x);
      calc {
        Without(a + b, x);
        head + Without(t + b, x);
        head + (wt + wb);
        { ConcatAssoc(head, wt, wb); }
        (head + wt) + wb;
        Without(a, x) + wb;
      }
    }
  }

  /** Concatenation is associative. */
  lemma ConcatAssoc<T>(a: seq<T>, b: seq<T>, c: seq<T>)
    ensures a + (b + c) == (a + b) + c
  {
  }

  /** Filtering a list with a known first element. */
  lemma WithoutCons<T(!new)>(y: T, xs: seq<T>, x: T)
    ensures Without([y] + xs, x) == (if y == x then [] else [y]) + Without(xs, x)
  {
    assert ([y] + xs)[1..] == xs;
  }

  /** Python's `list(range(a, b))`. */
  function Range(a: nat, b: nat): (r: seq<nat>)
    ensures |r| == if a <= b then b - a else 0
    ensures forall k :: 0 <= k < |r| ==> r[k] == a + k
  {
    if b <= a then [] else seq(b - a, k => a + k)
  }

  /** `xs.count(x) > 1` says exactly that `x` occurs at two positions. */
  lemma {:induction false} CountAboveOne<T>(xs: seq<T>, x: T)
    ensures Count(xs, x) > 1 <==> Repeats(xs, x)
  {
    if |xs| > 0 {
      var rest := xs[1..];
      assert xs == [xs[0]] + rest;
      CountAboveOne(rest, x);
      if Repeats(rest, x) {
        var i, j :| 0 <= i < j < |rest| && rest[i] == x && rest[j] == x;
        assert xs[i + 1] == x && xs[j + 1] == x;
      }
      if xs[0] == x && x in rest {
        var j :| 0 <= j < |rest| && rest[j] == x;
        assert xs[j + 1] == x;
      }
      if Repeats(xs, x) {
        var i, j :| 0 <= i < j < |xs| && xs[i] == x && xs[j] == x;
        if i == 0 {
          assert rest[j - 1] == x;
        } else {
          assert rest[i - 1] == x && rest[j - 1] == x;
        }
      }
    }
  }

  /** A list without duplicates holds every value at most once. */
  lemma NoDuplicatesCount<T>(xs: seq<T>)
    ensures NoDuplicates(xs) <==> forall x :: Count(xs, x) <= 1
  {
    if !NoDuplicates(xs) {
      var i, j :| 0 <= i < j < |xs| && xs[i] == xs[j];
      CountAboveOne(xs, xs[i]);
    } else {
      forall x ensures Count(xs, x) <= 1 {
        CountAboveOne(xs, x);
      }
    }
  }

  /** Python's duplicate test `len(set(xs)) != len(xs)` holds exactly when
      some element is repeated. */
  lemma {:induction false} SetSizeIffDistinct<T>(xs: seq<T>)
    ensures |Elems(xs)| <= |xs|
    ensures |Elems(xs)| == |xs| <==> NoDuplicates(xs)
  {
    if |xs| > 0 {
      var rest := xs[1..];
      SetSizeIffDistinct(rest);
      assert Elems(xs) == {xs[0]} + Elems(rest);
      if xs[0] in rest {
        var k :| 0 <= k < |rest| && rest[k] == xs[0];
        assert xs[k + 1] == xs[0];
        assert Elems(xs) == Elems(rest);
      } else {
        assert xs[0] !in Elems(rest);
        forall i, j | 0 <= i < j < |xs| && NoDuplicates(rest)
          ensures xs[i] != xs[j]
        {
          if i > 0 {
            assert xs[i] == rest[i - 1] && xs[j] == rest[j - 1];
          } else {
            assert xs[j] == rest[j - 1];
          }
        }
        forall i, j | 0 <= i < j < |rest| && NoDuplicates(xs)
          ensures rest[i] != rest[j]
        {
          assert rest[i] == xs[i + 1] && rest[j] == xs[j + 1];
        }
      }
    }
  }
}
