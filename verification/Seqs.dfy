/** Sequences of distinct elements, as an ordered dictionary keeps its keys. */
module Seqs {

  datatype Option<+T> = None | Some(value: T)

  ghost predicate Distinct<T>(s: seq<T>) {
    s == [] || (Distinct(s[..|s| - 1]) && s[|s| - 1] !in s[..|s| - 1])
  }

  lemma DistinctSnoc<T>(s: seq<T>, x: T)
    requires Distinct(s) && x !in s
    ensures Distinct(s + [x])
  {
    assert (s + [x])[..|s|] == s;
  }

  lemma {:induction false} DistinctAt<T>(s: seq<T>, i: nat)
    requires Distinct(s) && i < |s|
    ensures s[i] !in s[..i] && s[i] !in s[i + 1..]
  {
    if i < |s| - 1 {
      DistinctAt(s[..|s| - 1], i);
      assert s[..|s| - 1][..i] == s[..i];
      assert s[i + 1..] == s[..|s| - 1][i + 1..] + [s[|s| - 1]];
      assert s[i] == s[..|s| - 1][i];
    }
  }

  function Min(a: int, b: int): int {
    if a <= b then a else b
  }

  lemma SplitAt<T>(s: seq<T>, i: nat)
    requires i < |s|
    ensures s == (s[..i] + [s[i]]) + s[i + 1..]
  {
  }

  function Elems<T>(s: seq<T>): set<T> {
    set x | x in s
  }

  /** `s` without the elements of `drop`, the rest in order. */
  function Minus<T(==,!new)>(s: seq<T>, drop: set<T>): (r: seq<T>)
    ensures |r| <= |s|
  {
    if s == [] then []
    else
      var front := Minus(s[..|s| - 1], drop);
      if s[|s| - 1] in drop then front else front + [s[|s| - 1]]
  }

  lemma {:induction false} InMinus<T(!new)>(s: seq<T>, drop: set<T>)
    ensures forall x :: x in Minus(s, drop) <==> x in s && x !in drop
  {
    if s != [] {
      assert s == s[..|s| - 1] + [s[|s| - 1]];
      InMinus(s[..|s| - 1], drop);
    }
  }

  lemma {:induction false} MinusAppend<T(!new)>(a: seq<T>, b: seq<T>, drop: set<T>)
    ensures Minus(a + b, drop) == Minus(a, drop) + Minus(b, drop)
  {
    if b == [] {
      assert a + b == a;
    } else {
      var n := |b| - 1;
      assert (a + b)[..|a + b| - 1] == a + b[..n];
      MinusAppend(a, b[..n], drop);
    }
  }

  lemma MinusSnoc<T(!new)>(s: seq<T>, x: T, drop: set<T>)
    ensures Minus(s + [x], drop) == if x in drop then Minus(s, drop) else Minus(s, drop) + [x]
  {
    assert (s + [x])[..|s|] == s;
  }

  lemma {:induction false} MinusMinus<T(!new)>(s: seq<T>, d: set<T>, e: set<T>)
    ensures Minus(Minus(s, d), e) == Minus(s, d + e)
  {
    if s != [] {
      var front, last := s[..|s| - 1], [s[|s| - 1]];
      MinusMinus(front, d, e);
      MinusAppend(Minus(front, d), last, e);
    }
  }

  lemma {:induction false} MinusNothing<T(!new)>(s: seq<T>, d: set<T>)
    requires forall x :: x in d ==> x !in s
    ensures Minus(s, d) == s
  {
    if s != [] {
      assert s == s[..|s| - 1] + [s[|s| - 1]];
      MinusNothing(s[..|s| - 1], d);
    }
  }

  lemma {:induction false} MinusDistinct<T(!new)>(s: seq<T>, d: set<T>)
    requires Distinct(s)
    ensures Distinct(Minus(s, d))
  {
    if s != [] {
      InMinus(s[..|s| - 1], d);
      MinusDistinct(s[..|s| - 1], d);
    }
  }

  /** Removing the first element of a distinct sequence. */
  lemma MinusFirst<T(!new)>(s: seq<T>)
    requires Distinct(s) && s != []
    ensures Minus(s, {s[0]}) == s[1..]
  {
    DistinctAt(s, 0);
    var head, tail := s[..1], s[1..];
    assert s == head + tail;
    MinusAppend(head, tail, {s[0]});
    MinusNothing(tail, {s[0]});
    assert Minus(head, {s[0]}) == [];
  }

  lemma {:induction false} DistinctSize<T>(s: seq<T>)
    requires Distinct(s)
    ensures |Elems(s)| == |s|
  {
    if s != [] {
      var front := s[..|s| - 1];
      DistinctSize(front);
      assert Elems(s) == Elems(front) + {s[|s| - 1]};
    }
  }

  function Both<T(==)>(s: seq<T>, d: set<T>): set<T> {
    set x | x in s && x in d
  }

  /** A removal from a distinct sequence shortens it by the number of elements it hits. */
  lemma MinusSize<T(!new)>(s: seq<T>, d: set<T>)
    requires Distinct(s)
    ensures |Minus(s, d)| + |Both(s, d)| == |s|
  {
    var r := Minus(s, d);
    InMinus(s, d);
    MinusDistinct(s, d);
    DistinctSize(s);
    DistinctSize(r);
    assert Elems(s) == Elems(r) + Both(s, d);
    assert Elems(r) !! Both(s, d);
  }

  /** Taking one element out of a distinct sequence. */
  lemma MinusOne<T(!new)>(s: seq<T>, x: T)
    requires Distinct(s) && x in s
    ensures |Minus(s, {x})| == |s| - 1 && Distinct(Minus(s, {x}))
  {
    MinusDistinct(s, {x});
    MinusSize(s, {x});
    assert Both(s, {x}) == {x};
  }

  /** Taking out the first of the elements outside `d` leaves the others outside `d`, in order. */
  lemma MinusFirstOutside<T(!new)>(s: seq<T>, d: set<T>)
    requires Distinct(s) && Minus(s, d) != []
    ensures Minus(Minus(s, {Minus(s, d)[0]}), d) == Minus(s, d)[1..]
  {
    var first := {Minus(s, d)[0]};
    MinusDistinct(s, d);
    MinusFirst(Minus(s, d));
    MinusMinus(s, d, first);
    MinusMinus(s, first, d);
    assert d + first == first + d;
  }

  /** The last element of a distinct sequence is in no proper prefix. */
  lemma LastInPrefix<T>(s: seq<T>, n: nat)
    requires Distinct(s) && s != [] && n <= |s|
    ensures s[|s| - 1] in s[..n] <==> n == |s|
  {
    var front := s[..|s| - 1];
    if n < |s| {
      assert s[..n] == front[..n];
      assert s[|s| - 1] !in front;
    }
  }

  /** A prefix of a distinct sequence is distinct. */
  lemma {:induction false} DistinctPrefix<T>(s: seq<T>, n: nat)
    requires Distinct(s) && n <= |s|
    ensures Distinct(s[..n])
  {
    if n < |s| {
      DistinctPrefix(s[..|s| - 1], n);
      assert s[..|s| - 1][..n] == s[..n];
    } else {
      assert s[..n] == s;
    }
  }

  /** In a distinct concatenation the parts have nothing in common. */
  lemma {:induction false} DistinctApart<T>(a: seq<T>, b: seq<T>, x: T)
    requires Distinct(a + b) && x in b
    ensures x !in a
  {
    var front := b[..|b| - 1];
    assert (a + b)[..|a + b| - 1] == a + front;
    if x in front {
      DistinctApart(a, front, x);
    } else {
      assert x == (a + b)[|a + b| - 1];
    }
  }

  /** The last `n` elements, or all of them. */
  function Tail<T>(s: seq<T>, n: nat): seq<T> {
    if |s| <= n then s else s[|s| - n..]
  }

  lemma TailWithin<T>(s: seq<T>, n: nat)
    ensures |Tail(s, n)| <= n
  {
  }

  lemma TailIs<T>(a: seq<T>, t: seq<T>, n: nat)
    requires |t| == n || (a == [] && |t| <= n)
    ensures Tail(a + t, n) == t
  {
    if a == [] {
      assert a + t == t;
    } else {
      assert (a + t)[|a|..] == t;
    }
  }

  lemma TailGrows<T>(s: seq<T>, n: nat, m: nat, x: T)
    requires n <= m && x in Tail(s, n)
    ensures x in Tail(s, m)
  {
    var t, u := Tail(s, n), Tail(s, m);
    var i :| 0 <= i < |t| && t[i] == x;
    assert u[|u| - |t| + i] == x;
  }

  /** An element that does not recur later is among the last `n` iff fewer than `n` elements follow it. */
  lemma InTail<T>(a: seq<T>, x: T, b: seq<T>, n: nat)
    requires x !in b
    ensures x in Tail(a + [x] + b, n) <==> |b| < n
  {
    var s := a + [x] + b;
    var t := Tail(s, n);
    if |b| < n {
      assert t[|t| - 1 - |b|] == x;
    } else {
      forall i | 0 <= i < |t| ensures t[i] != x {
        assert t[i] == b[|b| - |t| + i];
      }
    }
  }

  lemma {:induction false} DistinctPart<T>(a: seq<T>, t: seq<T>)
    requires Distinct(a + t)
    ensures Distinct(t)
  {
    if t != [] {
      var front := t[..|t| - 1];
      assert (a + t)[..|a + t| - 1] == a + front;
      DistinctPart(a, front);
      assert forall x :: x in front ==> x in a + front;
    }
  }

  lemma TailOfHit<T(!new)>(a: seq<T>, t: seq<T>, x: T, n: nat)
    requires Distinct(a + t) && x in t && (|t| == n || (a == [] && |t| <= n))
    ensures Tail(Minus(a, {x}) + Minus(t, {x}) + [x], n) == Minus(t, {x}) + [x]
  {
    DistinctApart(a, t, x);
    MinusNothing(a, {x});
    DistinctPart(a, t);
    MinusOne(t, x);
    assert a + Minus(t, {x}) + [x] == a + (Minus(t, {x}) + [x]);
    TailIs(a, Minus(t, {x}) + [x], n);
  }

  lemma TailOfMiss<T>(a: seq<T>, t: seq<T>, x: T, n: nat)
    requires n > 0 && (|t| == n || (a == [] && |t| <= n))
    ensures Tail(a + t + [x], n) == Tail(t + [x], n)
  {
    if |t| == n {
      assert a + t + [x] == (a + t[..1]) + (t[1..] + [x]);
      assert t + [x] == t[..1] + (t[1..] + [x]);
      TailIs(a + t[..1], t[1..] + [x], n);
      TailIs(t[..1], t[1..] + [x], n);
    } else {
      assert a + t + [x] == t + [x];
    }
  }

  /** A use of `x` moves it to the end of the last `n` elements, or enters it there. */
  lemma TailOfUse<T(!new)>(a: seq<T>, t: seq<T>, x: T, n: nat)
    requires Distinct(a + t) && n > 0 && (|t| == n || (a == [] && |t| <= n))
    ensures Tail(Minus(a + t, {x}) + [x], n) == if x in t then Minus(t, {x}) + [x] else Tail(t + [x], n)
  {
    MinusAppend(a, t, {x});
    if x in t {
      TailOfHit(a, t, x, n);
    } else {
      MinusNothing(t, {x});
      TailOfMiss(Minus(a, {x}), t, x, n);
    }
  }

  lemma SubsetSize<T>(a: set<T>, b: set<T>)
    requires a <= b
    ensures |a| <= |b|
  {
    assert b == a + (b - a);
  }

  /** The image of a finite set is no larger than the set. */
  lemma {:induction false} ImageSize<A, B>(s: set<A>, f: map<A, B>, image: set<B>)
    requires s <= f.Keys
    requires forall b :: b in image ==> exists a :: a in s && f[a] == b
    ensures |image| <= |s|
  {
    if image != {} {
      var b :| b in image;
      var a :| a in s && f[a] == b;
      forall c | c in image - {b} ensures exists x :: x in s - {a} && f[x] == c {
        var x :| x in s && f[x] == c;
        assert x in s - {a};
      }
      ImageSize(s - {a}, f, image - {b});
    }
  }
}
