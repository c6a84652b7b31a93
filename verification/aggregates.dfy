/**
 * The LINQ aggregates the statistics query uses: `Count(pred)`, `Sum(f)` and
 * `Select(f).Distinct().Count()`, over a sequence, together with the facts
 * that none of them depends on the order of the sequence.
 */
module Aggregates {

  /** `Sum(f)` over a sequence. */
  function Total<T>(s: seq<T>, f: T -> nat): nat {
    if |s| == 0 then 0 else f(s[0]) + Total(s[1..], f)
  }

  /** `Count(p)`: how many elements satisfy `p`. */
  function Count<T>(s: seq<T>, p: T -> bool): (n: nat)
    ensures n <= |s|
  {
    if |s| == 0 then 0 else (if p(s[0]) then 1 else 0) + Count(s[1..], p)
  }

  /** The count reaches the length exactly when every element qualifies, and is 0 exactly when none does. */
  lemma {:induction false} CountExtremes<T>(s: seq<T>, p: T -> bool)
    ensures Count(s, p) == |s| <==> forall i :: 0 <= i < |s| ==> p(s[i])
    ensures Count(s, p) == 0 <==> forall i :: 0 <= i < |s| ==> !p(s[i])
  {
    if |s| > 0 {
      CountExtremes(s[1..], p);
      assert forall i :: 1 <= i < |s| ==> s[i] == s[1..][i - 1];
    }
  }

  /** The positions of `s` whose element satisfies `p`. */
  function Positions<T>(s: seq<T>, p: T -> bool): set<int> {
    set i | 0 <= i < |s| && p(s[i])
  }

  /** `Count(p)` is the number of positions whose element satisfies `p`. */
  lemma {:induction false} CountIsIndexCount<T>(s: seq<T>, p: T -> bool)
    ensures Count(s, p) == |Positions(s, p)|
    decreases |s|
  {
    if |s| > 0 {
      var n := |s| - 1;
      var init := s[..n];
      CountIsIndexCount(init, p);
      assert s == init + [s[n]];
      CountAppend(init, [s[n]], p);
      assert [s[n]][1..] == [];
      var before := Positions(init, p);
      var after := Positions(s, p);
      if p(s[n]) {
        assert after == before + {n};
      } else {
        assert after == before;
      }
    }
  }

  /** `Select(f).Distinct()`: the set of images of the elements. */
  function Image<T, U>(s: seq<T>, f: T -> U): (r: set<U>)
    ensures |r| <= |s|
    ensures |r| == 0 <==> |s| == 0
    ensures forall i :: 0 <= i < |s| ==> f(s[i]) in r
    ensures forall y :: y in r ==> exists i :: 0 <= i < |s| && f(s[i]) == y
  {
    if |s| == 0 then {}
    else
      var rest := Image(s[1..], f);
      assert forall i :: 1 <= i < |s| ==> s[i] == s[1..][i - 1];
      assert forall i :: 0 <= i < |s| - 1 ==> s[1..][i] == s[i + 1];
      {f(s[0])} + rest
  }

  lemma {:induction false} TotalAppend<T>(a: seq<T>, b: seq<T>, f: T -> nat)
    ensures Total(a + b, f) == Total(a, f) + Total(b, f)
    decreases |a|
  {
    if |a| == 0 {
      assert a + b == b;
    } else {
      TotalAppend(a[1..], b, f);
      assert (a + b)[1..] == a[1..] + b;
    }
  }

  lemma {:induction false} CountAppend<T>(a: seq<T>, b: seq<T>, p: T -> bool)
    ensures Count(a + b, p) == Count(a, p) + Count(b, p)
    decreases |a|
  {
    if |a| == 0 {
      assert a + b == b;
    } else {
      CountAppend(a[1..], b, p);
      assert (a + b)[1..] == a[1..] + b;
    }
  }

  /** Removing the element at `j` leaves the rest of the multiset. */
  lemma DropAt<T>(s: seq<T>, j: int)
    requires 0 <= j < |s|
    ensures multiset(s[..j] + s[j + 1..]) == multiset(s) - multiset{s[j]}
  {
    SplitAt(s, j);
  }

  lemma SplitAt<T>(s: seq<T>, j: int)
    requires 0 <= j < |s|
    ensures s == s[..j] + ([s[j]] + s[j + 1..])
  {
  }

  /** Some position of `s'` holds the head of `s`, and the rest of `s` is a permutation of `s'` without it. */
  lemma MatchHead<T>(s: seq<T>, s': seq<T>) returns (j: int)
    requires |s| > 0 && multiset(s) == multiset(s')
    ensures 0 <= j < |s'| && s'[j] == s[0]
    ensures multiset(s[1..]) == multiset(s'[..j] + s'[j + 1..])
  {
    assert s == [s[0]] + s[1..];
    assert s[0] in multiset(s');
    j :| 0 <= j < |s'| && s'[j] == s[0];
    DropAt(s', j);
  }

  lemma TotalCons<T>(x: T, s: seq<T>, f: T -> nat)
    ensures Total([x] + s, f) == f(x) + Total(s, f)
  {
    assert ([x] + s)[1..] == s;
  }

  lemma CountCons<T>(x: T, s: seq<T>, p: T -> bool)
    ensures Count([x] + s, p) == (if p(x) then 1 else 0) + Count(s, p)
  {
    assert ([x] + s)[1..] == s;
  }

  /** Summing with the element at `j` taken out, then adding it back. */
  lemma TotalDropAt<T>(s: seq<T>, j: int, f: T -> nat)
    requires 0 <= j < |s|
    ensures Total(s, f) == f(s[j]) + Total(s[..j] + s[j + 1..], f)
  {
    var pre, x, post := s[..j], s[j], s[j + 1..];
    SplitAt(s, j);
    TotalAppend(pre, [x] + post, f);
    TotalCons(x, post, f);
    TotalAppend(pre, post, f);
  }

  /** Counting with the element at `j` taken out, then adding it back. */
  lemma CountDropAt<T>(s: seq<T>, j: int, p: T -> bool)
    requires 0 <= j < |s|
    ensures Count(s, p) == (if p(s[j]) then 1 else 0) + Count(s[..j] + s[j + 1..], p)
  {
    var pre, x, post := s[..j], s[j], s[j + 1..];
    SplitAt(s, j);
    CountAppend(pre, [x] + post, p);
    CountCons(x, post, p);
    CountAppend(pre, post, p);
  }

  /** A sum does not depend on the order of the summands. */
  lemma {:induction false} TotalPermutation<T>(s: seq<T>, s': seq<T>, f: T -> nat)
    requires multiset(s) == multiset(s')
    ensures Total(s, f) == Total(s', f)
    decreases |s|
  {
    if |s| == 0 {
      assert |multiset(s')| == 0;
    } else {
      var j := MatchHead(s, s');
      TotalPermutation(s[1..], s'[..j] + s'[j + 1..], f);
      TotalDropAt(s', j, f);
    }
  }

  /** A count does not depend on the order of the elements. */
  lemma {:induction false} CountPermutation<T>(s: seq<T>, s': seq<T>, p: T -> bool)
    requires multiset(s) == multiset(s')
    ensures Count(s, p) == Count(s', p)
    decreases |s|
  {
    if |s| == 0 {
      assert |multiset(s')| == 0;
    } else {
      var j := MatchHead(s, s');
      CountPermutation(s[1..], s'[..j] + s'[j + 1..], p);
      CountDropAt(s', j, p);
    }
  }

  /** The images of a two-element sequence. */
  lemma ImageOfPair<T, U>(a: T, b: T, f: T -> U)
    ensures Image([a, b], f) == {f(a), f(b)}
  {
    assert [a, b][1..] == [b];
    assert [b][1..] == [];
  }

  /** Two elements with the same image contribute a single image. */
  lemma ImageOfEqualPair<T, U>(a: T, b: T, f: T -> U)
    requires f(a) == f(b)
    ensures |Image([a, b], f)| == 1
  {
    ImageOfPair(a, b, f);
    assert {f(a), f(b)} == {f(a)};
  }

  /** The set of images does not depend on the order (or multiplicity) of the elements. */
  lemma ImagePermutation<T, U>(s: seq<T>, s': seq<T>, f: T -> U)
    requires multiset(s) == multiset(s')
    ensures Image(s, f) == Image(s', f)
  {
    forall y | y in Image(s, f)
      ensures y in Image(s', f)
    {
      var i :| 0 <= i < |s| && f(s[i]) == y;
      assert s[i] in multiset(s');
      var j :| 0 <= j < |s'| && s'[j] == s[i];
    }
    forall y | y in Image(s', f)
      ensures y in Image(s, f)
    {
      var i :| 0 <= i < |s'| && f(s'[i]) == y;
      assert s'[i] in multiset(s);
      var j :| 0 <= j < |s| && s[j] == s'[i];
    }
  }
}
