/**
 The set of values a function takes on the elements of a sequence, as Python
 builds it with `set(map(f, s))`, and how its size relates to the length of
 the sequence: the two are equal exactly when `f` sends no two positions of
 the sequence to the same value.
 */
module Images {

  /** `set(map(f, s))` */
  function Image<T(==), U>(s: seq<T>, f: T -> U): set<U> {
    set x | x in s :: f(x)
  }

  /** No two positions of `s` have the same value under `f`. */
  predicate InjectiveOn<T(==), U(==)>(s: seq<T>, f: T -> U) {
    forall i, j :: 0 <= i < j < |s| ==> f(s[i]) != f(s[j])
  }

  /** The number of elements of `s` whose value under `f` lies outside `e`. */
  function CountOutside<T(==), U>(s: seq<T>, f: T -> U, e: set<U>): nat {
    if s == [] then 0
    else CountOutside(s[..|s| - 1], f, e) + (if f(s[|s| - 1]) in e then 0 else 1)
  }

  lemma ImageSnoc<T, U>(p: seq<T>, x: T, f: T -> U)
    ensures Image(p + [x], f) == Image(p, f) + {f(x)}
  {
    forall y | y in Image(p + [x], f) ensures y in Image(p, f) + {f(x)} {
      var z :| z in p + [x] && f(z) == y;
      if z != x { assert z in p; }
    }
  }

  /** The image of a sequence has at most as many elements as the sequence. */
  lemma {:induction false} ImageBound<T, U>(s: seq<T>, f: T -> U)
    ensures |Image(s, f)| <= |s|
  {
    if s == [] {
      assert Image(s, f) == {};
    } else {
      var p := s[..|s| - 1];
      assert s == p + [s[|s| - 1]];
      ImageSnoc(p, s[|s| - 1], f);
      ImageBound(p, f);
    }
  }

  lemma InjectiveOnPrefix<T, U>(s: seq<T>, f: T -> U, k: nat)
    requires k <= |s| && InjectiveOn(s, f)
    ensures InjectiveOn(s[..k], f)
  {
    forall i, j | 0 <= i < j < k ensures f(s[..k][i]) != f(s[..k][j]) {
      assert s[..k][i] == s[i] && s[..k][j] == s[j];
    }
  }

  /** The last element's value is new exactly when it is not shared with an earlier position. */
  lemma LastValueFresh<T, U>(s: seq<T>, f: T -> U)
    requires s != []
    ensures var p := s[..|s| - 1];
      f(s[|s| - 1]) in Image(p, f) <==> exists i :: 0 <= i < |s| - 1 && f(s[i]) == f(s[|s| - 1])
  {
    var p := s[..|s| - 1];
    if f(s[|s| - 1]) in Image(p, f) {
      var z :| z in p && f(z) == f(s[|s| - 1]);
      var i :| 0 <= i < |p| && p[i] == z;
      assert s[i] == z;
    }
    if exists i :: 0 <= i < |s| - 1 && f(s[i]) == f(s[|s| - 1]) {
      var i :| 0 <= i < |s| - 1 && f(s[i]) == f(s[|s| - 1]);
      assert p[i] == s[i];
      assert s[i] in p;
    }
  }

  /**
   The size test `len(set(map(f, s))) == len(s)` holds exactly when `f` is
   injective on the positions of `s`.
   */
  lemma {:induction false} ImageSizeIffInjective<T, U>(s: seq<T>, f: T -> U)
    ensures |Image(s, f)| == |s| <==> InjectiveOn(s, f)
  {
    if s == [] {
      assert Image(s, f) == {};
    } else {
      var n := |s| - 1;
      var p := s[..n];
      assert s == p + [s[n]];
      ImageSnoc(p, s[n], f);
      LastValueFresh(s, f);
      ImageBound(p, f);
      ImageSizeIffInjective(p, f);
      if InjectiveOn(s, f) {
        InjectiveOnPrefix(s, f, n);
      } else {
        var i, j :| 0 <= i < j < |s| && f(s[i]) == f(s[j]);
        if j < n {
          assert p[i] == s[i] && p[j] == s[j];
          assert !InjectiveOn(p, f);
        }
      }
    }
  }

  /**
   When `f` is injective on `s`, the values of `s` outside `e` are exactly as
   many as the elements of `s` whose value lies outside `e`.
   */
  lemma {:induction false} InjectiveImageOutside<T, U>(s: seq<T>, f: T -> U, e: set<U>)
    requires InjectiveOn(s, f)
    ensures |Image(s, f) - e| == CountOutside(s, f, e)
  {
    if s == [] {
      assert Image(s, f) == {};
    } else {
      var n := |s| - 1;
      var p := s[..n];
      assert s == p + [s[n]];
      ImageSnoc(p, s[n], f);
      LastValueFresh(s, f);
      InjectiveOnPrefix(s, f, n);
      InjectiveImageOutside(p, f, e);
      if f(s[n]) in e {
        assert Image(s, f) - e == Image(p, f) - e;
      } else {
        assert Image(s, f) - e == (Image(p, f) - e) + {f(s[n])};
      }
    }
  }

  /** Two equal positions of `s` make their element occur at least twice. */
  lemma TwoPositions<T>(s: seq<T>, i: nat, j: nat)
    requires i < j < |s|
    ensures s[i] == s[j] ==> multiset(s)[s[i]] >= 2
  {
    assert s == s[..j] + s[j..];
    assert s[i] in s[..j];
    assert s[j] in s[j..];
    assert multiset(s) == multiset(s[..j]) + multiset(s[j..]);
  }

  /** An element that occurs at least twice stands at two different positions. */
  lemma {:induction false} TwiceAtTwoPositions<T>(s: seq<T>, x: T)
    ensures multiset(s)[x] >= 2 ==> exists i, j :: 0 <= i < j < |s| && s[i] == x && s[j] == x
  {
    if s != [] {
      var n := |s| - 1;
      var p := s[..n];
      assert s == p + [s[n]];
      assert multiset(s) == multiset(p) + multiset{s[n]};
      if s[n] == x {
        if x in multiset(p) {
          var i :| 0 <= i < |p| && p[i] == x;
          assert s[i] == x;
        }
      } else {
        TwiceAtTwoPositions(p, x);
        if multiset(p)[x] >= 2 {
          var i, j :| 0 <= i < j < |p| && p[i] == x && p[j] == x;
          assert s[i] == x && s[j] == x;
        }
      }
    }
  }

  /** Injectivity survives taking any sub-multiset of the elements, in any order. */
  lemma InjectiveOnSubMultiset<T, U>(t: seq<T>, s: seq<T>, f: T -> U)
    requires multiset(t) <= multiset(s) && InjectiveOn(s, f)
    ensures InjectiveOn(t, f)
  {
    forall i, j | 0 <= i < j < |t| ensures f(t[i]) != f(t[j]) {
      TwoPositions(t, i, j);
      TwiceAtTwoPositions(s, t[i]);
      assert t[i] in multiset(s) && t[j] in multiset(s);
      var k :| 0 <= k < |s| && s[k] == t[i];
      var l :| 0 <= l < |s| && s[l] == t[j];
    }
  }

  /** Only the elements of a sequence matter to its image, not their order or number. */
  lemma ImageOfSubMultiset<T, U>(t: seq<T>, s: seq<T>, f: T -> U)
    requires multiset(t) <= multiset(s)
    ensures Image(t, f) <= Image(s, f)
  {
    forall y | y in Image(t, f) ensures y in Image(s, f) {
      var z :| z in t && f(z) == y;
      assert z in multiset(t);
    }
  }
}
