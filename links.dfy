/**
  The two-sided registration lists shared by subjects and observers.

  A subject keeps the ordered list of observers it notifies; an observer keeps
  the ordered list of subjects it is registered with. Both lists allow
  duplicates. Everything here is generic in the two kinds of handle, so that
  one lemma serves the subject side and the observer side alike.
 */
module Links {

  /** Number of occurrences of `x` in `xs`. */
  function Count<T(==)>(xs: seq<T>, x: T): (n: nat)
    ensures n <= |xs|
    ensures n > 0 <==> x in xs
  {
    if xs == [] then 0 else (if xs[0] == x then 1 else 0) + Count(xs[1..], x)
  }

  /** `n` copies of `x`. */
  function Repeat<T>(x: T, n: nat): seq<T>
  {
    if n == 0 then [] else Repeat(x, n - 1) + [x]
  }

  lemma {:induction false} CountAppend<T>(a: seq<T>, b: seq<T>, x: T)
    ensures Count(a + b, x) == Count(a, x) + Count(b, x)
  {
    if a == [] {
      assert a + b == b;
    } else {
      assert (a + b)[1..] == a[1..] + b;
      CountAppend(a[1..], b, x);
    }
  }

  lemma {:induction false} CountRepeat<T>(x: T, n: nat, y: T)
    ensures Count(Repeat(x, n), y) == if x == y then n else 0
  {
    if n > 0 {
      CountAppend(Repeat(x, n - 1), [x], y);
      CountRepeat(x, n - 1, y);
    }
  }

  /** Updates of two different keys commute. */
  lemma UpdateSwap<K, V>(m: map<K, V>, a: K, b: K, x: V, y: V)
    requires a != b
    ensures m[a := x][b := y] == m[b := y][a := x]
  {
  }

  /** A second update of a key overrides the first. */
  lemma UpdateTwice<K, V>(m: map<K, V>, a: K, x: V, y: V)
    ensures m[a := x][a := y] == m[a := y]
  {
  }

  /**
    The erase-remove idiom: `xs` with every occurrence of `x` taken out and
    the other entries kept in their original order.
   */
  function Erase<T(==,!new)>(xs: seq<T>, x: T): (r: seq<T>)
    ensures forall y {:trigger y in r} :: y in r <==> y in xs && y != x
    ensures forall y {:trigger Count(r, y)} :: y != x ==> Count(r, y) == Count(xs, y)
    ensures |r| == |xs| - Count(xs, x)
    ensures x !in xs ==> r == xs
  {
    if xs == [] then []
    else if xs[0] == x then Erase(xs[1..], x)
    else
      var rest := Erase(xs[1..], x);
      assert ([xs[0]] + rest)[1..] == rest;
      assert x !in xs ==> [xs[0]] + xs[1..] == xs;
      [xs[0]] + rest
  }

  /** Erasing distributes over concatenation: the survivors keep their relative order. */
  lemma {:induction false} EraseAppend<T(!new)>(a: seq<T>, b: seq<T>, x: T)
    ensures Erase(a + b, x) == Erase(a, x) + Erase(b, x)
  {
    if a == [] {
      assert a + b == b;
    } else {
      assert (a + b)[1..] == a[1..] + b;
      EraseAppend(a[1..], b, x);
    }
  }

  /** Erasing an entry that was just appended to a list without it restores the list. */
  lemma EraseUndoesAppend<T(!new)>(xs: seq<T>, x: T)
    requires x !in xs
    ensures Erase(xs + [x], x) == xs
  {
    EraseAppend(xs, [x], x);
  }

  /** Erasing `x` from a list followed by copies of some other `y` leaves the copies at the end. */
  lemma EraseBeforeRepeat<T(!new)>(xs: seq<T>, x: T, y: T, n: nat)
    requires x != y
    ensures Erase(xs + Repeat(y, n), x) == Erase(xs, x) + Repeat(y, n)
  {
    EraseAppend(xs, Repeat(y, n), x);
    CountRepeat(y, n, x);
  }

  /** Every list of `m` with every occurrence of `x` erased. */
  function EraseAll<K, T(==,!new)>(m: map<K, seq<T>>, x: T): map<K, seq<T>>
  {
    map k | k in m :: Erase(m[k], x)
  }

  /** Erasing `x` once more from one list does not change what erasing `x` everywhere gives. */
  lemma EraseAllAbsorbs<K, T(!new)>(m: map<K, seq<T>>, k: K, x: T)
    requires k in m
    ensures EraseAll(m[k := Erase(m[k], x)], x) == EraseAll(m, x)
  {
  }

  /** Erasing everywhere is idempotent. */
  lemma EraseAllTwice<K, T(!new)>(m: map<K, seq<T>>, x: T)
    ensures EraseAll(EraseAll(m, x), x) == EraseAll(m, x)
  {
  }

  /** Erasing a value that no list holds changes nothing. */
  lemma EraseAllAbsent<K, T(!new)>(m: map<K, seq<T>>, x: T)
    requires forall k :: k in m ==> x !in m[k]
    ensures EraseAll(m, x) == m
  {
  }

  /**
    `m` after appending `v` to the list of each key of `keys`, in order (a
    key that `m` does not hold is skipped).
   */
  function AppendEach<K(==), T>(m: map<K, seq<T>>, keys: seq<K>, v: T): (r: map<K, seq<T>>)
    ensures r.Keys == m.Keys
  {
    if keys == [] then m
    else
      var r := AppendEach(m, keys[..|keys| - 1], v);
      var k := keys[|keys| - 1];
      if k in r then r[k := r[k] + [v]] else r
  }

  /** Taking one more key of `keys` appends one more `v`, to that key's list only. */
  lemma AppendEachNext<K(!new), T>(m: map<K, seq<T>>, keys: seq<K>, i: nat, v: T)
    requires i < |keys| && keys[i] in m
    ensures AppendEach(m, keys[..i + 1], v)
         == AppendEach(m, keys[..i], v)[keys[i] := AppendEach(m, keys[..i], v)[keys[i]] + [v]]
  {
    assert keys[..i + 1][..i] == keys[..i];
  }

  /** One more element of `xs` taken onto the end of `base`. */
  lemma PrefixNext<T>(base: seq<T>, xs: seq<T>, i: nat)
    requires i < |xs|
    ensures base + xs[..i + 1] == (base + xs[..i]) + [xs[i]]
  {
    assert xs[..i + 1] == xs[..i] + [xs[i]];
  }

  /** A list of `m` gains one `v` at its end per occurrence of its key in `keys`. */
  lemma {:induction false} AppendEachCount<K(!new), T>(m: map<K, seq<T>>, keys: seq<K>, v: T, k: K)
    requires k in m
    ensures AppendEach(m, keys, v)[k] == m[k] + Repeat(v, Count(keys, k))
  {
    if keys == [] {
      assert m[k] + [] == m[k];
    } else {
      var init, last := keys[..|keys| - 1], keys[|keys| - 1];
      var r := AppendEach(m, init, v);
      assert keys == init + [last];
      AppendEachCount(m, init, v, k);
      CountAppend(init, [last], k);
      if k == last {
        assert AppendEach(m, keys, v)[k] == r[k] + [v];
        assert Count(keys, k) == Count(init, k) + 1;
        assert m[k] + Repeat(v, Count(init, k)) + [v] == m[k] + (Repeat(v, Count(init, k)) + [v]);
      } else {
        assert AppendEach(m, keys, v)[k] == r[k];
        assert Count(keys, k) == Count(init, k);
      }
    }
  }

  /** Every list of `m`, as `AppendEachCount` states for one. */
  lemma AppendEachCounts<K(!new), T>(m: map<K, seq<T>>, keys: seq<K>, v: T)
    ensures forall k :: k in m ==> AppendEach(m, keys, v)[k] == m[k] + Repeat(v, Count(keys, k))
  {
    forall k | k in m
      ensures AppendEach(m, keys, v)[k] == m[k] + Repeat(v, Count(keys, k))
    {
      AppendEachCount(m, keys, v, k);
    }
  }

  /** `AppendEachCounts` on lists from which `v` was first erased. */
  lemma AppendAfterErase<K(!new), T(!new)>(m: map<K, seq<T>>, keys: seq<K>, v: T)
    ensures forall k :: k in m ==> AppendEach(EraseAll(m, v), keys, v)[k] == Erase(m[k], v) + Repeat(v, Count(keys, k))
  {
    forall k | k in m
      ensures AppendEach(EraseAll(m, v), keys, v)[k] == Erase(m[k], v) + Repeat(v, Count(keys, k))
    {
      AppendEachCount(EraseAll(m, v), keys, v, k);
    }
  }

  /**
    The bidirectional registration invariant between the lists `left` keeps
    per handle of one kind and the lists `right` keeps per handle of the
    other kind: no list mentions a handle that is not live, and `b` occurs in
    `left[a]` exactly as often as `a` occurs in `right[b]`.
   */
  ghost predicate Consistent<A(!new), B(!new)>(left: map<A, seq<B>>, right: map<B, seq<A>>)
  {
    && (forall a, b :: a in left && b in left[a] ==> b in right)
    && (forall b, a :: b in right && a in right[b] ==> a in left)
    && (forall a, b {:trigger Count(left[a], b)} {:trigger Count(right[b], a)} ::
          a in left && b in right ==> Count(left[a], b) == Count(right[b], a))
  }

  /** Consistency does not depend on which side is called left. */
  lemma ConsistentSymmetric<A(!new), B(!new)>(left: map<A, seq<B>>, right: map<B, seq<A>>)
    ensures Consistent(left, right) <==> Consistent(right, left)
  {
  }

  /** A new handle with an empty list is unknown to the other side. */
  lemma AddKeyKeepsConsistent<A(!new), B(!new)>(left: map<A, seq<B>>, right: map<B, seq<A>>, a: A)
    requires Consistent(left, right) && a !in left
    ensures Consistent(left[a := []], right)
    ensures forall b :: b in right ==> a !in right[b]
  {
  }

  /** A handle whose list is empty can be dropped: no list of the other side mentions it. */
  lemma DropKeepsConsistent<A(!new), B(!new)>(left: map<A, seq<B>>, right: map<B, seq<A>>, a: A)
    requires Consistent(left, right) && a in left && left[a] == []
    ensures Consistent(left - {a}, right)
  {
    forall b | b in right
      ensures a !in right[b]
    {
      assert Count(left[a], b) == 0;
    }
  }

  /** Appending `b` to `left[a]` and `a` to `right[b]` raises both counts by one. */
  lemma LinkKeepsConsistent<A(!new), B(!new)>(left: map<A, seq<B>>, right: map<B, seq<A>>, a: A, b: B)
    requires Consistent(left, right) && a in left && b in right
    ensures Consistent(left[a := left[a] + [b]], right[b := right[b] + [a]])
  {
    var l, r := left[a := left[a] + [b]], right[b := right[b] + [a]];
    forall a', b' | a' in l && b' in r
      ensures Count(l[a'], b') == Count(r[b'], a')
    {
      CountAppend(left[a], [b], b');
      CountAppend(right[b], [a], a');
    }
  }

  /** Erasing every `b` from `left[a]` and every `a` from `right[b]` zeroes both counts together. */
  lemma UnlinkKeepsConsistent<A(!new), B(!new)>(left: map<A, seq<B>>, right: map<B, seq<A>>, a: A, b: B)
    requires Consistent(left, right) && a in left && b in right
    ensures Consistent(left[a := Erase(left[a], b)], right[b := Erase(right[b], a)])
  {
    var l, r := left[a := Erase(left[a], b)], right[b := Erase(right[b], a)];
    forall a', b' | a' in l && b' in l[a']
      ensures b' in r
    {
      assert b' in left[a'];
    }
    forall b', a' | b' in r && a' in r[b']
      ensures a' in l
    {
      assert a' in right[b'];
    }
  }

  /** Unlinking a pair that was never linked changes neither list. */
  lemma UnlinkUnlinkedIsNoop<A(!new), B(!new)>(left: map<A, seq<B>>, right: map<B, seq<A>>, a: A, b: B)
    requires Consistent(left, right) && a in left && b in right && b !in left[a]
    ensures left[a := Erase(left[a], b)] == left && right[b := Erase(right[b], a)] == right
  {
    assert Count(right[b], a) == Count(left[a], b) == 0;
  }

  /**
    Emptying `left[a]` while erasing `a` from every list of the other side
    keeps the two sides consistent.
   */
  lemma DetachKeepsConsistent<A(!new), B(!new)>(left: map<A, seq<B>>, right: map<B, seq<A>>, a: A)
    requires Consistent(left, right) && a in left
    ensures Consistent(left[a := []], EraseAll(right, a))
  {
    var l, r := left[a := []], EraseAll(right, a);
    forall b', a' | b' in r && a' in r[b']
      ensures a' in l
    {
      assert a' in right[b'];
    }
  }

  /** The erase of a handle that a consistent other side does not list changes nothing. */
  lemma EraseAllUnlisted<A(!new), B(!new)>(left: map<A, seq<B>>, right: map<B, seq<A>>, a: A)
    requires Consistent(left, right) && a in left && left[a] == []
    ensures EraseAll(right, a) == right
  {
    forall b | b in right
      ensures Erase(right[b], a) == right[b]
    {
      assert Count(left[a], b) == 0;
    }
  }

  /**
    Registering `to` on each handle of `right[from]`, in order, and then
    detaching `from` leaves every list of `left` with its `from` entries
    taken out and one `to` at the end per `from` it held.
   */
  lemma TakeOverLists<A(!new), B(!new)>(left: map<A, seq<B>>, right: map<B, seq<A>>, from: B, to: B)
    requires Consistent(left, right) && from in right && from != to
    ensures forall a :: a in left ==>
      EraseAll(AppendEach(left, right[from], to), from)[a] == Erase(left[a], from) + Repeat(to, Count(left[a], from))
  {
    AppendEachCounts(left, right[from], to);
    forall a | a in left
      ensures EraseAll(AppendEach(left, right[from], to), from)[a] == Erase(left[a], from) + Repeat(to, Count(left[a], from))
    {
      assert Count(right[from], a) == Count(left[a], from);
      EraseBeforeRepeat(left[a], from, to, Count(left[a], from));
    }
  }

  /**
    `TakeOverLists` after `to` has first been detached from the other side:
    its earlier entries are gone and it ends up where `from` was.
   */
  lemma TakeOverDetached<A(!new), B(!new)>(left: map<A, seq<B>>, right: map<B, seq<A>>, to: B, from: B)
    requires Consistent(left, right) && to in right && from in right && to != from
    ensures forall a :: a in left ==>
      EraseAll(AppendEach(EraseAll(left, to), right[from], to), from)[a]
        == Erase(Erase(left[a], to), from) + Repeat(to, Count(left[a], from))
  {
    DetachKeepsConsistent(right, left, to);
    ConsistentSymmetric(right[to := []], EraseAll(left, to));
    TakeOverLists(EraseAll(left, to), right[to := []], from, to);
    forall a | a in left
      ensures Count(EraseAll(left, to)[a], from) == Count(left[a], from)
    {
    }
  }
}
