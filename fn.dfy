/** Fn: a small functional wrapper around a collection (`Fn.on(c)`), with
    `filter`, `mapTo` and `forEach` walking the collection in iteration
    order, plus a few ready-made functions. A collection is the sequence
    of its elements in iteration order; a Java function object (`IFn`)
    is a Dafny function, and one that accumulates into its own fields is a
    step function over its state. */
module Functional {
  import opened Lang

  /** The elements of `s` that satisfy `p`, in order. */
  function Filtered<E>(s: seq<E>, p: E -> bool): (r: seq<E>)
    ensures |r| <= |s|
    ensures forall i :: 0 <= i < |r| ==> p(r[i]) && r[i] in s
  {
    if s == [] then []
    else
      var last := s[|s| - 1];
      Filtered(s[..|s| - 1], p) + (if p(last) then [last] else [])
  }

  /** `f` applied to each element of `s`, in order. */
  function Mapped<E, Q>(s: seq<E>, f: E -> Q): (r: seq<Q>)
    ensures |r| == |s|
    ensures forall i :: 0 <= i < |s| ==> r[i] == f(s[i])
  {
    if s == [] then [] else Mapped(s[..|s| - 1], f) + [f(s[|s| - 1])]
  }

  /** The state a step function reaches from `init` over `s`, in order. */
  function Fold<S, E>(s: seq<E>, step: (S, E) -> S, init: S): S {
    if s == [] then init else step(Fold(s[..|s| - 1], step, init), s[|s| - 1])
  }

  /** `filter` keeps exactly the elements satisfying the predicate. */
  lemma {:induction false} FilteredMembers<E>(s: seq<E>, p: E -> bool, x: E)
    ensures x in Filtered(s, p) <==> x in s && p(x)
  {
    if s != [] {
      var init := s[..|s| - 1];
      FilteredMembers(init, p, x);
      assert s == init + [s[|s| - 1]];
    }
  }

  /** `filter` keeps the iteration order: filtering a concatenation
      filters each part. */
  lemma {:induction false} FilteredAppend<E>(a: seq<E>, b: seq<E>, p: E -> bool)
    ensures Filtered(a + b, p) == Filtered(a, p) + Filtered(b, p)
    decreases |b|
  {
    if b == [] {
      assert a + b == a;
    } else {
      var init := b[..|b| - 1];
      FilteredAppend(a, init, p);
      assert (a + b)[..|a + b| - 1] == a + init && (a + b)[|a + b| - 1] == b[|b| - 1];
    }
  }

  /** Filtering a second time with the same predicate changes nothing. */
  lemma {:induction false} FilteredIdempotent<E>(s: seq<E>, p: E -> bool)
    ensures Filtered(Filtered(s, p), p) == Filtered(s, p)
  {
    if s != [] {
      var init := s[..|s| - 1];
      var last := s[|s| - 1];
      FilteredIdempotent(init, p);
      var tail := if p(last) then [last] else [];
      FilteredAppend(Filtered(init, p), tail, p);
      if p(last) {
        assert Filtered(tail, p) == Filtered([], p) + [last];
      }
    }
  }

  /** `forEach` over a concatenation runs over the first part, then over
      the second from where the first left off. */
  lemma {:induction false} FoldAppend<S, E>(a: seq<E>, b: seq<E>, step: (S, E) -> S, init: S)
    ensures Fold(a + b, step, init) == Fold(b, step, Fold(a, step, init))
    decreases |b|
  {
    if b == [] {
      assert a + b == a;
    } else {
      FoldAppend(a, b[..|b| - 1], step, init);
      assert (a + b)[..|a + b| - 1] == a + b[..|b| - 1];
    }
  }

  /** `notNull()`: true for a non-null argument. */
  predicate NotNull<T>(t: Option<T>) {
    t.Some?
  }

  /** Filtering with `notNull()` leaves no null element. */
  lemma NoNullsAfterFilter<T>(s: seq<Option<T>>)
    ensures None !in Filtered(s, NotNull)
    ensures forall x :: x in s && x.Some? ==> x in Filtered(s, NotNull)
  {
    FilteredMembers(s, NotNull, None);
    forall x | x in s && x.Some?
      ensures x in Filtered(s, NotNull)
    {
      FilteredMembers(s, NotNull, x);
    }
  }

  /** `range(from, to)`: `t.compareTo(from) >= 0 && t.compareTo(to) <= 0`
      for a comparison `cmp`. */
  predicate InRange<T>(cmp: (T, T) -> int, from: T, to: T, t: T) {
    cmp(t, from) >= 0 && cmp(t, to) <= 0
  }

  /** `Integer.compareTo`. */
  function IntCompare(a: int, b: int): (c: int)
    ensures c < 0 <==> a < b
    ensures c == 0 <==> a == b
  {
    if a < b then -1 else if a == b then 0 else 1
  }

  /** On integers, `range(from, to)` includes both ends. */
  lemma RangeInclusive(from: int, to: int, t: int)
    ensures InRange(IntCompare, from, to, t) <==> from <= t <= to
  {
  }

  /** `Character.toLowerCase` on the ASCII letters: a capital becomes the
      small letter at the same place in the alphabet. */
  function LowerChar(c: char): (d: char)
    ensures !('A' <= d <= 'Z')
    ensures 'A' <= c <= 'Z' ==> 'a' <= d <= 'z' && d as int - 'a' as int == c as int - 'A' as int
    ensures 'a' <= c <= 'z' || !('A' <= c <= 'Z') ==> d == c
  {
    if 'A' <= c <= 'Z' then (c as int + 32) as char else c
  }

  /** `Character.toUpperCase` on the ASCII letters: a small letter becomes
      the capital at the same place in the alphabet. */
  function UpperChar(c: char): (d: char)
    ensures !('a' <= d <= 'z')
    ensures 'a' <= c <= 'z' ==> 'A' <= d <= 'Z' && d as int - 'A' as int == c as int - 'a' as int
    ensures 'A' <= c <= 'Z' || !('a' <= c <= 'z') ==> d == c
  {
    if 'a' <= c <= 'z' then (c as int - 32) as char else c
  }

  /** `ToLowerCase`: `t.toLowerCase()`. */
  function ToLowerCase(t: string): (r: string)
    ensures |r| == |t|
    ensures forall i :: 0 <= i < |r| ==> r[i] == LowerChar(t[i])
    ensures forall i :: 0 <= i < |r| ==> !('A' <= r[i] <= 'Z')
  {
    Mapped(t, LowerChar)
  }

  /** `ToUpperCase` as written: it also calls `t.toLowerCase()`, so every
      character comes out lower-cased. */
  function ToUpperCaseAsWritten(t: string): (r: string)
    ensures |r| == |t|
    ensures forall i :: 0 <= i < |r| ==> r[i] == LowerChar(t[i])
  {
    ToLowerCase(t)
  }

  /** Evidence: the function named `ToUpperCase` leaves a lower-case
      letter lower-case and turns an upper-case one into lower case. */
  lemma ToUpperCaseLowers()
    ensures ToUpperCaseAsWritten("a") == "a" != "A"
    ensures ToUpperCaseAsWritten("A") == "a"
  {
    assert LowerChar('a') == 'a';
    assert LowerChar('A') == 'a';
  }

  /** `ToUpperCase` as evidently intended: `t.toUpperCase()`. */
  function ToUpperCase(t: string): (r: string)
    ensures |r| == |t|
    ensures forall i :: 0 <= i < |r| ==> r[i] == UpperChar(t[i])
    ensures forall i :: 0 <= i < |r| ==> !('a' <= r[i] <= 'z')
  {
    Mapped(t, UpperChar)
  }

  /** The two case mappings undo each other on the letters they change. */
  lemma CaseRoundTrip(c: char)
    ensures 'a' <= c <= 'z' ==> LowerChar(UpperChar(c)) == c
    ensures 'A' <= c <= 'Z' ==> UpperChar(LowerChar(c)) == c
  {
  }

  /** Upper-casing changes only the case: lower-casing the result gives
      what lower-casing the argument gives. */
  lemma UpperThenLower(t: string)
    ensures ToLowerCase(ToUpperCase(t)) == ToLowerCase(t)
  {
    assert forall i :: 0 <= i < |t| ==> LowerChar(UpperChar(t[i])) == LowerChar(t[i]);
  }

  /** `Fn.on(collection)`. */
  datatype Fn<E> = Fn(collection: seq<E>)
  {
    /** `get()`: the wrapped collection. */
    function Get(): seq<E> {
      collection
    }

    /** `filter(p)`: a new list of the elements `p` accepts, in order. */
    method Filter(p: E -> bool) returns (r: Fn<E>)
      ensures r.Get() == Filtered(collection, p)
    {
      var result: seq<E> := [];
      var i := 0;
      while i < |collection|
        invariant 0 <= i <= |collection| && result == Filtered(collection[..i], p)
        decreases |collection| - i
      {
        var element := collection[i];
        assert collection[..i + 1][..i] == collection[..i];
        if p(element) {
          result := result + [element];
        }
        i := i + 1;
      }
      assert collection[..i] == collection;
      return Fn(result);
    }

    /** `mapTo(f)`: a new list holding `f` of each element, in order. */
    method MapTo<Q>(f: E -> Q) returns (r: Fn<Q>)
      ensures r.Get() == Mapped(collection, f)
    {
      var result: seq<Q> := [];
      var i := 0;
      while i < |collection|
        invariant 0 <= i <= |collection| && result == Mapped(collection[..i], f)
        decreases |collection| - i
      {
        assert collection[..i + 1][..i] == collection[..i];
        result := result + [f(collection[i])];
        i := i + 1;
      }
      assert collection[..i] == collection;
      return Fn(result);
    }

    /** `forEach(f)`: applies `f` to every element in order and hands `f`
        back, here as the state its fields reached. */
    method ForEach<S>(step: (S, E) -> S, init: S) returns (final: S)
      ensures final == Fold(collection, step, init)
    {
      final := init;
      var i := 0;
      while i < |collection|
        invariant 0 <= i <= |collection| && final == Fold(collection[..i], step, init)
        decreases |collection| - i
      {
        assert collection[..i + 1][..i] == collection[..i];
        final := step(final, collection[i]);
        i := i + 1;
      }
      assert collection[..i] == collection;
    }
  }
}
