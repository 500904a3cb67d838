/** Sequences, and subsequences of them: the same elements in the same order, some left out. */
module Sequences {
  lemma Associates<T>(a: seq<T>, b: seq<T>, c: seq<T>)
    ensures (a + b) + c == a + (b + c)
  {}

  predicate Subsequence<T(==)>(a: seq<T>, b: seq<T>)
    decreases |b|
  {
    || a == []
    || (&& b != []
        && (|| (a[|a| - 1] == b[|b| - 1] && Subsequence(a[..|a| - 1], b[..|b| - 1]))
            || Subsequence(a, b[..|b| - 1])))
  }

  lemma Snoc<T>(a: seq<T>, b: seq<T>, x: T)
    requires Subsequence(a, b)
    ensures Subsequence(a + [x], b + [x]) && Subsequence(a, b + [x])
  {
    assert (a + [x])[..|a|] == a && (b + [x])[..|b|] == b;
  }

  lemma {:induction false} Append<T>(a: seq<T>, b: seq<T>, c: seq<T>)
    requires Subsequence(a, b)
    ensures Subsequence(a + c, b + c) && Subsequence(a, b + c)
    decreases |c|
  {
    hide Subsequence;
    if c == [] {
      assert a + c == a && b + c == b;
    } else {
      var n := |c| - 1;
      Append(a, b, c[..n]);
      Snoc(a + c[..n], b + c[..n], c[n]);
      Snoc(a, b + c[..n], c[n]);
      assert a + c == a + c[..n] + [c[n]] && b + c == b + c[..n] + [c[n]];
    }
  }

  lemma Prefix<T>(a: seq<T>, b: seq<T>)
    requires a <= b
    ensures Subsequence(a, b)
  {
    Append([], [], a);
    assert [] + a == a;
    Append(a, a, b[|a|..]);
    assert b == a + b[|a|..];
  }

  lemma {:induction false} Transitive<T>(a: seq<T>, b: seq<T>, c: seq<T>)
    requires Subsequence(a, b) && Subsequence(b, c)
    ensures Subsequence(a, c)
    decreases |c|
  {
    if a != [] {
      var a', b', c' := a[..|a| - 1], b[..|b| - 1], c[..|c| - 1];
      if b[|b| - 1] == c[|c| - 1] && Subsequence(b', c') {
        if a[|a| - 1] == b[|b| - 1] && Subsequence(a', b') {
          Transitive(a', b', c');
        } else {
          Transitive(a, b', c');
        }
      } else {
        Transitive(a, b, c');
      }
    }
  }
}
