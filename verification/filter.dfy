/** Dropping every occurrence of one value from a sequence, the way
    `favorites.filter(fav => fav !== queryToRemove)` does, together with the
    facts the favorites store relies on: order, multiplicity, idempotence. */
module Filter {

  /** Number of entries of `xs` equal to `q`. */
  function Count<T(==)>(xs: seq<T>, q: T): (n: nat)
    ensures n <= |xs|
    ensures n == 0 <==> q !in xs
  {
    if xs == [] then 0
    else (if xs[0] == q then 1 else 0) + Count(xs[1..], q)
  }

  /** `xs` with every entry equal to `q` dropped; the survivors keep their
      relative order. */
  function Without<T(==)>(xs: seq<T>, q: T): (r: seq<T>)
    ensures q !in r
    ensures forall x | x in r :: x in xs && x != q
    ensures forall x | x in xs && x != q :: x in r
    ensures |r| == |xs| - Count(xs, q)
  {
    if xs == [] then []
    else if xs[0] == q then Without(xs[1..], q)
    else [xs[0]] + Without(xs[1..], q)
  }

  /** `s` can be obtained from `xs` by deleting entries, without reordering. */
  predicate IsSubsequence<T(==)>(s: seq<T>, xs: seq<T>)
    decreases |xs|
  {
    if s == [] then true
    else if xs == [] then false
    else (s[0] == xs[0] && IsSubsequence(s[1..], xs[1..])) || IsSubsequence(s, xs[1..])
  }

  /** A value that does not occur is never dropped. */
  lemma {:induction false} WithoutAbsent<T>(xs: seq<T>, q: T)
    requires q !in xs
    ensures Without(xs, q) == xs
  {
    if xs != [] {
      WithoutAbsent(xs[1..], q);
    }
  }

  /** Filtering a second time changes nothing. */
  lemma {:induction false} WithoutIdempotent<T>(xs: seq<T>, q: T)
    ensures Without(Without(xs, q), q) == Without(xs, q)
  {
    WithoutAbsent(Without(xs, q), q);
  }

  /** Nothing survives exactly when every entry equals `q`. */
  lemma WithoutEmpty<T>(xs: seq<T>, q: T)
    ensures Without(xs, q) == [] <==> forall x | x in xs :: x == q
  {
    var r := Without(xs, q);
    if r != [] {
      assert r[0] in r;
    }
  }

  /** Filtering works piecewise on a concatenation. */
  lemma {:induction false} WithoutAppend<T>(a: seq<T>, b: seq<T>, q: T)
    ensures Without(a + b, q) == Without(a, q) + Without(b, q)
  {
    if a == [] {
      assert a + b == b;
    } else {
      var ab := a + b;
      assert ab[0] == a[0] && ab[1..] == a[1..] + b;
      WithoutAppend(a[1..], b, q);
      if a[0] == q {
        assert Without(ab, q) == Without(a[1..] + b, q);
      } else {
        assert Without(ab, q) == [a[0]] + Without(a[1..] + b, q);
        assert [a[0]] + (Without(a[1..], q) + Without(b, q))
            == ([a[0]] + Without(a[1..], q)) + Without(b, q);
      }
    }
  }

  /** Filtering two different values commutes. */
  lemma {:induction false} WithoutCommutes<T>(xs: seq<T>, p: T, q: T)
    ensures Without(Without(xs, p), q) == Without(Without(xs, q), p)
  {
    if xs != [] {
      WithoutCommutes(xs[1..], p, q);
    }
  }

  /** `Count` is the multiplicity of `q` in `xs`. */
  lemma {:induction false} CountIsMultiplicity<T>(xs: seq<T>, q: T)
    ensures multiset(xs)[q] == Count(xs, q)
  {
    if xs != [] {
      assert xs == [xs[0]] + xs[1..];
      CountIsMultiplicity(xs[1..], q);
    }
  }

  /** The survivors are exactly the entries of `xs` other than `q`, each with
      its original multiplicity. */
  lemma {:induction false} WithoutMultiset<T>(xs: seq<T>, q: T)
    ensures multiset(Without(xs, q)) == multiset(xs)[q := 0]
  {
    if xs != [] {
      assert xs == [xs[0]] + xs[1..];
      WithoutMultiset(xs[1..], q);
    }
  }

  /** The survivors appear in their original relative order. */
  lemma {:induction false} WithoutIsSubsequence<T>(xs: seq<T>, q: T)
    ensures IsSubsequence(Without(xs, q), xs)
  {
    if xs != [] {
      WithoutIsSubsequence(xs[1..], q);
      var r := Without(xs, q);
      if xs[0] != q {
        assert r[0] == xs[0] && r[1..] == Without(xs[1..], q);
      }
    }
  }

  /** A subsequence never holds more copies of a value than its source. */
  lemma {:induction false} SubsequenceMultiset<T>(s: seq<T>, xs: seq<T>)
    requires IsSubsequence(s, xs)
    ensures multiset(s) <= multiset(xs)
    decreases |xs|
  {
    if s != [] {
      assert xs == [xs[0]] + xs[1..];
      if s[0] == xs[0] && IsSubsequence(s[1..], xs[1..]) {
        assert s == [s[0]] + s[1..];
        SubsequenceMultiset(s[1..], xs[1..]);
      } else {
        SubsequenceMultiset(s, xs[1..]);
      }
    }
  }

  /** A subsequence of `t` holds fewer copies of `h` than `[h] + t`. */
  lemma SubsequenceOfTail<T>(s: seq<T>, h: T, t: seq<T>)
    requires IsSubsequence(s, t)
    ensures multiset(s)[h] < multiset([h] + t)[h]
  {
    SubsequenceMultiset(s, t);
    assert multiset([h] + t) == multiset{h} + multiset(t);
  }

  /** Removing a common head that is not `q` keeps the multiset relation. */
  lemma DropCommonHead<T>(s: seq<T>, xs: seq<T>, q: T)
    requires s != [] && xs != [] && s[0] == xs[0] && xs[0] != q
    requires multiset(s) == multiset(xs)[q := 0]
    ensures multiset(s[1..]) == multiset(xs[1..])[q := 0]
  {
    assert s == [s[0]] + s[1..];
    assert xs == [xs[0]] + xs[1..];
    assert multiset(s) == multiset{s[0]} + multiset(s[1..]);
    assert multiset(xs) == multiset{s[0]} + multiset(xs[1..]);
    forall x
      ensures multiset(s[1..])[x] == multiset(xs[1..])[q := 0][x]
    {
      assert multiset(s)[x] == multiset{s[0]}[x] + multiset(s[1..])[x];
      assert multiset(xs)[x] == multiset{s[0]}[x] + multiset(xs[1..])[x];
    }
  }

  /** `Without` is the only order-preserving selection from `xs` that keeps
      every entry other than `q` and drops every `q`. */
  lemma {:induction false} WithoutUnique<T>(s: seq<T>, xs: seq<T>, q: T)
    requires IsSubsequence(s, xs)
    requires multiset(s) == multiset(xs)[q := 0]
    ensures s == Without(xs, q)
    decreases |xs|
  {
    if s == [] {
      WithoutMultiset(xs, q);
      assert |multiset(Without(xs, q))| == 0;
    } else {
      var h, t := xs[0], xs[1..];
      assert xs == [h] + t;
      assert s[0] in multiset(s);
      if h == q {
        assert IsSubsequence(s, t);
        assert multiset(xs) == multiset{h} + multiset(t);
        assert multiset(xs)[q := 0] == multiset(t)[q := 0];
        WithoutUnique(s, t, q);
      } else {
        if !(s[0] == h && IsSubsequence(s[1..], t)) {
          SubsequenceOfTail(s, h, t);
          assert false;
        }
        DropCommonHead(s, xs, q);
        WithoutUnique(s[1..], t, q);
        assert s == [s[0]] + s[1..];
      }
    }
  }

  /** The loop that `Array.prototype.filter` runs: visit the entries in order
      and append each one that differs from `q`. */
  method FilterOut<T(==)>(xs: seq<T>, q: T) returns (r: seq<T>)
    ensures r == Without(xs, q)
  {
    r := [];
    var i := 0;
    while i < |xs|
      invariant 0 <= i <= |xs|
      invariant r == Without(xs[..i], q)
    {
      assert xs[..i + 1] == xs[..i] + [xs[i]];
      WithoutAppend(xs[..i], [xs[i]], q);
      if xs[i] != q {
        r := r + [xs[i]];
      }
      i := i + 1;
    }
    assert xs[..i] == xs;
  }
}
