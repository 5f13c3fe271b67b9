/**
 The enumerations the planners borrow from Python's `itertools`:
 `permutations(s)` and `combinations(s, k)` in their documented order
 (positions taken in lexicographic order, so the first element varies slowest).
 */
module Enumeration {
  import opened Seqs

  function Factorial(n: nat): nat {
    if n == 0 then 1 else n * Factorial(n - 1)
  }

  lemma {:induction false} FactorialPositive(n: nat)
    ensures Factorial(n) > 0
  {
    if n > 0 {
      FactorialPositive(n - 1);
    }
  }

  /** `s` without its element at position `i`; the others keep their order. */
  function Remove<T>(s: seq<T>, i: nat): seq<T>
    requires i < |s|
  {
    s[..i] + s[i + 1..]
  }

  /** Put `x` in front of each sequence of `ps`, keeping their order. */
  function Prefixed<T>(x: T, ps: seq<seq<T>>): seq<seq<T>> {
    if |ps| == 0 then [] else [[x] + ps[0]] + Prefixed(x, ps[1..])
  }

  /**
   `itertools.permutations(s)`: for each position `i` in turn, `s[i]` followed by
   every permutation of the others. Positions, not values, are permuted, so a
   repeated value yields repeated permutations, as in Python.
   */
  function Perms<T>(s: seq<T>): seq<seq<T>>
    decreases |s|, 1
  {
    if |s| == 0 then [[]] else PermsFrom(s, 0)
  }

  /** The permutations whose first element comes from position `i` or later. */
  function PermsFrom<T>(s: seq<T>, i: nat): seq<seq<T>>
    requires i <= |s|
    decreases |s|, 0, |s| - i
  {
    if i == |s| then [] else Prefixed(s[i], Perms(Remove(s, i))) + PermsFrom(s, i + 1)
  }

  // ---------------------------------------------------------------------------
  // Facts
  // ---------------------------------------------------------------------------

  lemma RemoveMultiset<T>(s: seq<T>, i: nat)
    requires i < |s|
    ensures |Remove(s, i)| == |s| - 1
    ensures multiset(Remove(s, i)) + multiset{s[i]} == multiset(s)
  {
    assert s == s[..i] + [s[i]] + s[i + 1..];
  }

  lemma {:induction false} PrefixedLength<T>(x: T, ps: seq<seq<T>>)
    ensures |Prefixed(x, ps)| == |ps|
  {
    if |ps| > 0 {
      PrefixedLength(x, ps[1..]);
    }
  }

  /** A member of `Prefixed(x, ps)` is `x` followed by a member of `ps`, and each such sequence is a member. */
  lemma {:induction false} PrefixedMembers<T>(x: T, ps: seq<seq<T>>, p: seq<T>)
    ensures p in Prefixed(x, ps) <==> |p| > 0 && p[0] == x && p[1..] in ps
  {
    if |ps| > 0 {
      PrefixedMembers(x, ps[1..], p);
      if |p| > 0 && p[0] == x && p[1..] in ps && p[1..] != ps[0] {
        assert p[1..] in ps[1..] by {
          var k :| 0 <= k < |ps| && ps[k] == p[1..];
          assert ps[1..][k - 1] == p[1..];
        }
      }
      if p == [x] + ps[0] {
        assert p[1..] == ps[0];
      }
    }
  }

  /** There are `n!` permutations of `n` positions. */
  lemma {:induction false} PermsCount<T>(s: seq<T>)
    ensures |Perms(s)| == Factorial(|s|)
    decreases |s|, 1
  {
    if |s| > 0 {
      PermsFromCount(s, 0);
    }
  }

  lemma {:induction false} PermsFromCount<T>(s: seq<T>, i: nat)
    requires 0 < |s| && i <= |s|
    ensures |PermsFrom(s, i)| == (|s| - i) * Factorial(|s| - 1)
    decreases |s|, 0, |s| - i
  {
    if i < |s| {
      RemoveMultiset(s, i);
      PermsCount(Remove(s, i));
      PrefixedLength(s[i], Perms(Remove(s, i)));
      PermsFromCount(s, i + 1);
      MulStep(|s| - i - 1, Factorial(|s| - 1));
    }
  }

  lemma MulStep(a: nat, f: nat)
    ensures (a + 1) * f == f + a * f
  {
  }

  /** Every enumerated sequence is a rearrangement of `s`. */
  lemma {:induction false} PermsSound<T>(s: seq<T>, p: seq<T>)
    requires p in Perms(s)
    ensures multiset(p) == multiset(s)
    decreases |s|, 1
  {
    if |s| > 0 {
      PermsFromSound(s, 0, p);
    }
  }

  lemma {:induction false} PermsFromSound<T>(s: seq<T>, i: nat, p: seq<T>)
    requires i <= |s| && p in PermsFrom(s, i)
    ensures multiset(p) == multiset(s)
    decreases |s|, 0, |s| - i
  {
    if i < |s| {
      var rest := Perms(Remove(s, i));
      if p in Prefixed(s[i], rest) {
        PrefixedMembers(s[i], rest, p);
        RemoveMultiset(s, i);
        PermsSound(Remove(s, i), p[1..]);
        assert p == [s[i]] + p[1..];
      } else {
        PermsFromSound(s, i + 1, p);
      }
    }
  }

  /** Every rearrangement of `s` is enumerated. */
  lemma {:induction false} PermsComplete<T>(s: seq<T>, p: seq<T>)
    requires multiset(p) == multiset(s)
    ensures p in Perms(s)
    decreases |s|
  {
    assert |p| == |multiset(p)| == |s|;
    if |s| > 0 {
      assert p[0] in multiset(s);
      var i :| 0 <= i < |s| && s[i] == p[0];
      RemoveMultiset(s, i);
      assert p == [p[0]] + p[1..];
      assert multiset(p) == multiset(p[1..]) + multiset{s[i]};
      Cancel(multiset(p[1..]), multiset(Remove(s, i)), s[i]);
      PermsComplete(Remove(s, i), p[1..]);
      PrefixedMembers(s[i], Perms(Remove(s, i)), p);
      PermsFromHas(s, 0, i, p);
    }
  }

  lemma Cancel<T>(a: multiset<T>, b: multiset<T>, x: T)
    requires a + multiset{x} == b + multiset{x}
    ensures a == b
  {
    assert a == (a + multiset{x}) - multiset{x};
    assert b == (b + multiset{x}) - multiset{x};
  }

  /** A sequence headed by `s[i]` over a permutation of the others lies in `PermsFrom(s, j)` for `j <= i`. */
  lemma {:induction false} PermsFromHas<T>(s: seq<T>, j: nat, i: nat, p: seq<T>)
    requires j <= i < |s| && p in Prefixed(s[i], Perms(Remove(s, i)))
    ensures p in PermsFrom(s, j)
    decreases i - j
  {
    if j < i {
      PermsFromHas(s, j + 1, i, p);
    }
  }

  /** Together: the enumeration holds exactly the rearrangements of `s`, `|s|!` of them. */
  lemma PermsExactly<T>(s: seq<T>, p: seq<T>)
    ensures p in Perms(s) <==> multiset(p) == multiset(s)
    ensures |Perms(s)| == Factorial(|s|)
  {
    PermsCount(s);
    if p in Perms(s) {
      PermsSound(s, p);
    }
    if multiset(p) == multiset(s) {
      PermsComplete(s, p);
    }
  }

  // ---------------------------------------------------------------------------
  // combinations
  // ---------------------------------------------------------------------------

  /**
   `itertools.combinations(s, k)`: the selections of `k` positions in
   lexicographic order, those taking `s[0]` before those that skip it; each
   selection keeps the order of `s`.
   */
  function Combs<T>(s: seq<T>, k: nat): seq<seq<T>>
    decreases |s|
  {
    if k == 0 then [[]]
    else if |s| == 0 then []
    else Prefixed(s[0], Combs(s[1..], k - 1)) + Combs(s[1..], k)
  }

  /** Pascal's rule for the number of `k`-element selections from `n`. */
  function Binomial(n: nat, k: nat): nat {
    if k == 0 then 1 else if n == 0 then 0 else Binomial(n - 1, k - 1) + Binomial(n - 1, k)
  }

  /** There are `C(n, k)` selections of `k` out of `n` positions. */
  lemma {:induction false} CombsCount<T>(s: seq<T>, k: nat)
    ensures |Combs(s, k)| == Binomial(|s|, k)
    decreases |s|
  {
    if k > 0 && |s| > 0 {
      CombsCount(s[1..], k - 1);
      CombsCount(s[1..], k);
      PrefixedLength(s[0], Combs(s[1..], k - 1));
    }
  }

  /** The selections of size `k` are exactly the subsequences of `s` of length `k`. */
  lemma {:induction false} CombsExactly<T>(s: seq<T>, k: nat, x: seq<T>)
    ensures x in Combs(s, k) <==> |x| == k && IsSubseq(x, s)
    decreases |s|
  {
    if k == 0 {
      assert x in [[]] <==> x == [];
    } else if |s| > 0 {
      if |x| > 0 {
        CombsExactly(s[1..], k - 1, x[1..]);
      }
      CombsExactly(s[1..], k, x);
      PrefixedMembers(s[0], Combs(s[1..], k - 1), x);
      if |x| == k && IsSubseq(x, s[1..]) {
        SubseqSkipHead(x, s);
      }
    }
  }
}
