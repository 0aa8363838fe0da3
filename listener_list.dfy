/** The scanner's listener list and the filtering its disposers perform.
    A listener is a `ScannerEvents` object; the scanner only ever compares
    listeners by reference, so a listener is modelled as an object with no
    state of its own. */
module ListenerList {

  /** One registered `ScannerEvents` object; only its identity matters. */
  class Listener {
    constructor () {}
  }

  /** The number of entries of `ls` that are the very object `x`. */
  function Count(ls: seq<Listener>, x: Listener): (n: nat)
    ensures n <= |ls|
    ensures n == 0 <==> x !in ls
  {
    if ls == [] then 0
    else (if ls[0] == x then 1 else 0) + Count(ls[1..], x)
  }

  /** The list a disposer leaves behind: `ls` with every entry identical to
      `x` dropped and the others kept in their order. */
  function Without(ls: seq<Listener>, x: Listener): (r: seq<Listener>)
    ensures |r| == |ls| - Count(ls, x)
    ensures forall y :: y in r ==> y in ls && y != x
    ensures forall y :: y in ls && y != x ==> y in r
  {
    if ls == [] then []
    else if ls[0] == x then Without(ls[1..], x)
    else [ls[0]] + Without(ls[1..], x)
  }

  /** The list left after the disposers of every listener in `xs` have run. */
  function WithoutAll(ls: seq<Listener>, xs: set<Listener>): (r: seq<Listener>)
    ensures |r| <= |ls|
    ensures forall y :: y in r ==> y in ls && y !in xs
    ensures forall y :: y in ls && y !in xs ==> y in r
  {
    if ls == [] then []
    else if ls[0] in xs then WithoutAll(ls[1..], xs)
    else [ls[0]] + WithoutAll(ls[1..], xs)
  }

  /** Disposing works entry by entry: the disposer of `x` acts on each part
      of a list separately, so the relative order of the kept entries is the
      order they had. */
  lemma {:induction false} WithoutAppend(a: seq<Listener>, b: seq<Listener>, x: Listener)
    ensures Without(a + b, x) == Without(a, x) + Without(b, x)
  {
    if a == [] {
      assert a + b == b;
    } else {
      assert (a + b)[1..] == a[1..] + b;
      WithoutAppend(a[1..], b, x);
    }
  }

  /** Disposing a listener that is not registered changes nothing. */
  lemma {:induction false} WithoutAbsent(ls: seq<Listener>, x: Listener)
    requires x !in ls
    ensures Without(ls, x) == ls
  {
    if ls != [] {
      WithoutAbsent(ls[1..], x);
    }
  }

  /** Calling a disposer a second time has no further effect. */
  lemma {:induction false} WithoutIdempotent(ls: seq<Listener>, x: Listener)
    ensures Without(Without(ls, x), x) == Without(ls, x)
  {
    WithoutAbsent(Without(ls, x), x);
  }

  /** The disposer removes every copy of its own listener and leaves the
      number of copies of every other listener as it was. */
  lemma {:induction false} WithoutCount(ls: seq<Listener>, x: Listener, y: Listener)
    ensures Count(Without(ls, x), y) == if y == x then 0 else Count(ls, y)
  {
    if ls != [] {
      WithoutCount(ls[1..], x, y);
      if ls[0] != x {
        assert ([ls[0]] + Without(ls[1..], x))[1..] == Without(ls[1..], x);
      }
    }
  }

  /** Registering a listener that was not registered before and then calling
      the disposer just returned restores the list as it was. */
  lemma AddThenDispose(ls: seq<Listener>, x: Listener)
    requires x !in ls
    ensures Without(ls + [x], x) == ls
  {
    WithoutAppend(ls, [x], x);
    WithoutAbsent(ls, x);
    assert Without([x], x) == [];
  }

  /** Disposers of two different registrations may run in either order. */
  lemma {:induction false} WithoutCommutes(ls: seq<Listener>, x: Listener, y: Listener)
    ensures Without(Without(ls, x), y) == Without(Without(ls, y), x)
  {
    if ls != [] {
      WithoutCommutes(ls[1..], x, y);
    }
  }

  /** One disposer is the removal of a one-element set. */
  lemma {:induction false} WithoutAsWithoutAll(ls: seq<Listener>, x: Listener)
    ensures WithoutAll(ls, {x}) == Without(ls, x)
  {
    if ls != [] {
      WithoutAsWithoutAll(ls[1..], x);
    }
  }

  /** Removing the listeners of `a` and then those of `b` is removing those
      of `a + b` in one go. */
  lemma {:induction false} WithoutAllUnion(ls: seq<Listener>, a: set<Listener>, b: set<Listener>)
    ensures WithoutAll(WithoutAll(ls, a), b) == WithoutAll(ls, a + b)
  {
    if ls != [] {
      WithoutAllUnion(ls[1..], a, b);
    }
  }

  /** Removing no listener leaves the list as it is. */
  lemma {:induction false} WithoutAllEmpty(ls: seq<Listener>)
    ensures WithoutAll(ls, {}) == ls
  {
    if ls != [] {
      WithoutAllEmpty(ls[1..]);
    }
  }
}
