/** Sequence operations that the three admin screens build their list updates from:
    JavaScript's `filter`, the "append if absent, filter out if present" toggle, and the
    order and duplicate notions used to state what those updates preserve. */
module Lists {

  /** `a` is `b` with some elements dropped and the rest kept in their order. */
  ghost predicate Subseq<T>(a: seq<T>, b: seq<T>)
    decreases |b|
  {
    a == [] || (b != [] && ((a[0] == b[0] && Subseq(a[1..], b[1..])) || Subseq(a, b[1..])))
  }

  /** No element occurs twice. */
  ghost predicate NoDup<T>(s: seq<T>)
  {
    forall i, j :: 0 <= i < j < |s| ==> s[i] != s[j]
  }

  /** `Array.prototype.filter`: the elements of `s` that satisfy `keep`, in their order. */
  function Filter<T(==,!new)>(s: seq<T>, keep: T -> bool): (r: seq<T>)
    ensures |r| <= |s|
    ensures forall x :: x in r <==> x in s && keep(x)
    decreases |s|
  {
    if s == [] then []
    else
      (if keep(s[0]) then [s[0]] else []) + Filter(s[1..], keep)
  }

  /** `s.filter(y => y !== x)`. */
  function Without<T(==,!new)>(s: seq<T>, x: T): (r: seq<T>)
    ensures x !in r
    ensures forall y :: y != x ==> (y in r <==> y in s)
  {
    Filter(s, (y: T) => y != x)
  }

  /** `s.includes(x) ? s.filter(y => y !== x) : [...s, x]`: flips the membership of `x`. */
  function Toggle<T(==,!new)>(s: seq<T>, x: T): (r: seq<T>)
    ensures x in r <==> x !in s
    ensures forall y :: y != x ==> (y in r <==> y in s)
  {
    if x in s then Without(s, x) else s + [x]
  }

  /** Filtering keeps every copy of a surviving element and no copy of a rejected one. */
  lemma {:induction false} FilterMultiset<T(!new)>(s: seq<T>, keep: T -> bool, x: T)
    ensures multiset(Filter(s, keep))[x] == if keep(x) then multiset(s)[x] else 0
    decreases |s|
  {
    if s != [] {
      assert s == [s[0]] + s[1..];
      FilterMultiset(s[1..], keep, x);
    }
  }

  /** Filtering distributes over concatenation. */
  lemma {:induction false} FilterAppend<T(!new)>(a: seq<T>, b: seq<T>, keep: T -> bool)
    ensures Filter(a + b, keep) == Filter(a, keep) + Filter(b, keep)
    decreases |a|
  {
    if a == [] {
      assert a + b == b;
    } else {
      assert (a + b)[0] == a[0];
      assert (a + b)[1..] == a[1..] + b;
      FilterAppend(a[1..], b, keep);
    }
  }

  /** A filter that every element passes changes nothing. */
  lemma {:induction false} FilterAllKept<T(!new)>(s: seq<T>, keep: T -> bool)
    requires forall x :: x in s ==> keep(x)
    ensures Filter(s, keep) == s
    decreases |s|
  {
    if s != [] {
      assert forall x :: x in s[1..] ==> x in s;
      FilterAllKept(s[1..], keep);
    }
  }

  /** The filtered list keeps the surviving elements in their original order. */
  lemma {:induction false} FilterSubseq<T(!new)>(s: seq<T>, keep: T -> bool)
    ensures Subseq(Filter(s, keep), s)
    decreases |s|
  {
    if s != [] {
      FilterSubseq(s[1..], keep);
      var rest := Filter(s[1..], keep);
      if keep(s[0]) {
        var r := [s[0]] + rest;
        assert Filter(s, keep) == r;
        assert r[0] == s[0] && r[1..] == rest;
      } else {
        assert Filter(s, keep) == [] + rest == rest;
      }
    }
  }

  /** Filtering twice with the same test is filtering once. */
  lemma FilterIdempotent<T(!new)>(s: seq<T>, keep: T -> bool)
    ensures Filter(Filter(s, keep), keep) == Filter(s, keep)
  {
    FilterAllKept(Filter(s, keep), keep);
  }

  /** A subsequence never holds more copies of an element than the sequence. */
  lemma {:induction false} SubseqMultiset<T(!new)>(a: seq<T>, b: seq<T>)
    requires Subseq(a, b)
    ensures multiset(a) <= multiset(b)
    decreases |b|
  {
    if a != [] {
      assert b == [b[0]] + b[1..];
      if a[0] == b[0] && Subseq(a[1..], b[1..]) {
        SubseqMultiset(a[1..], b[1..]);
        assert a == [a[0]] + a[1..];
      } else {
        SubseqMultiset(a, b[1..]);
      }
    }
  }

  /** `Filter` is the only subsequence of `s` with exactly the surviving elements, so
      "drops the rejected elements and keeps the rest in order" characterises it. */
  lemma {:induction false} FilterUnique<T(!new)>(s: seq<T>, keep: T -> bool, t: seq<T>)
    requires Subseq(t, s)
    requires multiset(t) == multiset(Filter(s, keep))
    ensures t == Filter(s, keep)
    decreases |s|
  {
    if s == [] {
      assert multiset(t) == multiset{};
    } else {
      var h, rest := s[0], s[1..];
      assert s == [h] + rest;
      var fr := Filter(rest, keep);
      if t == [] {
        if keep(h) {
          FilterMultiset(s, keep, h);
          assert false;
        } else {
          assert multiset(fr) == multiset{};
          assert fr == [];
        }
      } else if t[0] == h && Subseq(t[1..], rest) {
        assert t == [h] + t[1..];
        if keep(h) {
          assert Filter(s, keep) == [h] + fr;
          forall x ensures multiset(t[1..])[x] == multiset(fr)[x] {
            assert multiset(t)[x] == multiset([h])[x] + multiset(t[1..])[x];
            assert multiset(Filter(s, keep))[x] == multiset([h])[x] + multiset(fr)[x];
          }
          assert multiset(t[1..]) == multiset(fr);
          FilterUnique(rest, keep, t[1..]);
        } else {
          FilterMultiset(s, keep, h);
          assert false;
        }
      } else {
        assert Subseq(t, rest);
        SubseqMultiset(t, rest);
        if keep(h) {
          FilterMultiset(s, keep, h);
          assert false;
        } else {
          assert Filter(s, keep) == fr;
          FilterUnique(rest, keep, t);
        }
      }
    }
  }

  /** Dropping elements cannot create a duplicate. */
  lemma {:induction false} FilterNoDup<T(!new)>(s: seq<T>, keep: T -> bool)
    requires NoDup(s)
    ensures NoDup(Filter(s, keep))
  {
    var r := Filter(s, keep);
    forall x | x in r ensures multiset(r)[x] == 1 {
      FilterMultiset(s, keep, x);
      NoDupCount(s, x);
    }
    CountNoDup(r);
  }

  /** In a duplicate-free sequence every element occurs once. */
  lemma {:induction false} NoDupCount<T(!new)>(s: seq<T>, x: T)
    requires NoDup(s)
    ensures multiset(s)[x] == if x in s then 1 else 0
    decreases |s|
  {
    if s != [] {
      assert s == [s[0]] + s[1..];
      assert NoDup(s[1..]) by {
        forall i, j | 0 <= i < j < |s[1..]| ensures s[1..][i] != s[1..][j] {
          assert s[1..][i] == s[i + 1] && s[1..][j] == s[j + 1];
        }
      }
      assert s[0] !in s[1..] by {
        forall k | 0 <= k < |s[1..]| ensures s[1..][k] != s[0] {
          assert s[1..][k] == s[k + 1];
        }
      }
      NoDupCount(s[1..], x);
    }
  }

  /** A sequence whose every element occurs once is duplicate-free. */
  lemma {:induction false} CountNoDup<T(!new)>(s: seq<T>)
    requires forall x :: x in s ==> multiset(s)[x] == 1
    ensures NoDup(s)
    decreases |s|
  {
    if s != [] {
      assert s == [s[0]] + s[1..];
      assert s[0] !in s[1..] by {
        assert multiset(s)[s[0]] == 1 + multiset(s[1..])[s[0]];
      }
      forall x | x in s[1..] ensures multiset(s[1..])[x] == 1 {
        assert x in s;
        assert multiset(s)[x] == multiset([s[0]])[x] + multiset(s[1..])[x];
        assert x != s[0];
      }
      CountNoDup(s[1..]);
      forall i, j | 0 <= i < j < |s| ensures s[i] != s[j] {
        if i == 0 {
          assert s[j] == s[1..][j - 1];
        } else {
          assert s[i] == s[1..][i - 1] && s[j] == s[1..][j - 1];
        }
      }
    }
  }

  /** `Without` drops every copy of `x` and keeps every other element, in its order and with
      its multiplicity. */
  lemma WithoutKeepsOthers<T(!new)>(s: seq<T>, x: T)
    ensures Subseq(Without(s, x), s)
    ensures forall y :: y != x ==> multiset(Without(s, x))[y] == multiset(s)[y]
  {
    var keep := (y: T) => y != x;
    FilterSubseq(s, keep);
    forall y | y != x ensures multiset(Filter(s, keep))[y] == multiset(s)[y] {
      FilterMultiset(s, keep, y);
    }
  }

  /** Removing an absent element changes nothing. */
  lemma WithoutAbsent<T(!new)>(s: seq<T>, x: T)
    requires x !in s
    ensures Without(s, x) == s
  {
    FilterAllKept(s, (y: T) => y != x);
  }

  /** Removing an element keeps a list duplicate-free. */
  lemma WithoutNoDup<T(!new)>(s: seq<T>, x: T)
    requires NoDup(s)
    ensures NoDup(Without(s, x))
  {
    FilterNoDup(s, (y: T) => y != x);
  }

  /** Toggling an absent element twice restores the exact original list. */
  lemma ToggleTwiceAbsent<T(!new)>(s: seq<T>, x: T)
    requires x !in s
    ensures Toggle(s, x) == s + [x]
    ensures Toggle(Toggle(s, x), x) == s
  {
    var keep := (y: T) => y != x;
    assert x in s + [x];
    FilterAppend(s, [x], keep);
    FilterAllKept(s, keep);
    assert Filter([x], keep) == [];
  }

  /** Toggling a present element twice restores its membership; the element now sits at the
      end, after every other element in its original order. */
  lemma TogglePresentTwice<T(!new)>(s: seq<T>, x: T)
    requires x in s
    ensures Toggle(Toggle(s, x), x) == Without(s, x) + [x]
    ensures forall y :: y in Toggle(Toggle(s, x), x) <==> y in s
    ensures Subseq(Without(s, x), s)
  {
    FilterSubseq(s, (y: T) => y != x);
  }
}
