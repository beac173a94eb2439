/**
  Python's ordering of `str` values, which `sorted` uses: code point by code
  point from the left, a proper prefix sorting before the longer string. Also
  the suffix test of `str.endswith` and a model of `sorted` on a list of strings.
*/
module LexOrder {

  /** `s.endswith(suffix)` */
  predicate EndsWith(s: string, suffix: string)
    ensures EndsWith(s, suffix) ==> |suffix| <= |s| && s == s[..|s| - |suffix|] + suffix
  {
    |suffix| <= |s| && s[|s| - |suffix|..] == suffix
  }

  /** `a <= b` on Python strings. */
  predicate LexLe(a: string, b: string)
    ensures a <= b ==> LexLe(a, b)
    decreases |a|
  {
    if a == [] then true
    else if b == [] then false
    else if a[0] != b[0] then a[0] < b[0]
    else LexLe(a[1..], b[1..])
  }

  lemma LexLeReflexive(a: string)
    ensures LexLe(a, a)
  {
  }

  lemma {:induction false} LexLeAntisymmetric(a: string, b: string)
    requires LexLe(a, b) && LexLe(b, a)
    ensures a == b
    decreases |a|
  {
    if a != [] && b != [] {
      LexLeAntisymmetric(a[1..], b[1..]);
      assert a == [a[0]] + a[1..] && b == [b[0]] + b[1..];
    }
  }

  lemma {:induction false} LexLeTransitive(a: string, b: string, c: string)
    requires LexLe(a, b) && LexLe(b, c)
    ensures LexLe(a, c)
    decreases |a|
  {
    if a != [] && b != [] && c != [] && a[0] == b[0] && b[0] == c[0] {
      LexLeTransitive(a[1..], b[1..], c[1..]);
    }
  }

  lemma {:induction false} LexLeTotal(a: string, b: string)
    ensures LexLe(a, b) || LexLe(b, a)
    decreases |a|
  {
    if a != [] && b != [] && a[0] == b[0] {
      LexLeTotal(a[1..], b[1..]);
    }
  }

  /** A shared prefix does not decide the comparison. */
  lemma {:induction false} LexLeCommonPrefix(p: string, x: string, y: string)
    ensures LexLe(p + x, p + y) <==> LexLe(x, y)
    decreases |p|
  {
    if p == [] {
      assert p + x == x && p + y == y;
    } else {
      assert (p + x)[0] == p[0] && (p + y)[0] == p[0];
      assert (p + x)[1..] == p[1..] + x && (p + y)[1..] == p[1..] + y;
      LexLeCommonPrefix(p[1..], x, y);
    }
  }

  /** Ascending in Python's string order. */
  ghost predicate Sorted(s: seq<string>)
  {
    forall i, j :: 0 <= i < j < |s| ==> LexLe(s[i], s[j])
  }

  /** Puts `x` in front of the first element it does not exceed. */
  function Insert(x: string, s: seq<string>): (r: seq<string>)
    ensures multiset(r) == multiset(s) + multiset{x}
    ensures Sorted(s) ==> Sorted(r)
  {
    if s == [] then [x]
    else if LexLe(x, s[0]) then
      InsertFrontSorted(x, s);
      [x] + s
    else
      var rest := Insert(x, s[1..]);
      LexLeTotal(x, s[0]);
      assert s == [s[0]] + s[1..];
      InsertBehindSorted(s[0], x, s[1..], rest);
      [s[0]] + rest
  }

  lemma InsertFrontSorted(x: string, s: seq<string>)
    requires s != [] && LexLe(x, s[0])
    ensures Sorted(s) ==> Sorted([x] + s)
  {
    if Sorted(s) {
      forall i, j | 0 <= i < j < |[x] + s|
        ensures LexLe(([x] + s)[i], ([x] + s)[j])
      {
        if i == 0 {
          if j > 1 {
            LexLeTransitive(x, s[0], s[j - 1]);
          }
        }
      }
    }
  }

  lemma InsertBehindSorted(h: string, x: string, tail: seq<string>, rest: seq<string>)
    requires LexLe(h, x)
    requires multiset(rest) == multiset(tail) + multiset{x}
    requires Sorted([h] + tail) ==> Sorted(rest)
    ensures Sorted([h] + tail) ==> Sorted([h] + rest)
  {
    if Sorted([h] + tail) {
      forall j | 0 <= j < |rest|
        ensures LexLe(h, rest[j])
      {
        assert rest[j] in multiset(rest);
        if rest[j] != x {
          assert rest[j] in multiset(tail);
          var k :| 0 <= k < |tail| && tail[k] == rest[j];
          assert ([h] + tail)[0] == h && ([h] + tail)[k + 1] == tail[k];
          assert LexLe(([h] + tail)[0], ([h] + tail)[k + 1]);
        }
      }
      forall i, j | 0 <= i < j < |[h] + rest|
        ensures LexLe(([h] + rest)[i], ([h] + rest)[j])
      {
        if i == 0 {
          assert ([h] + rest)[j] == rest[j - 1];
        } else {
          assert ([h] + rest)[i] == rest[i - 1] && ([h] + rest)[j] == rest[j - 1];
        }
      }
    }
  }

  /**
    `sorted(s)`. Python sorts with Timsort rather than by insertion, but under a
    total order every sorted permutation of `s` is the same list, so the result is
    the same.
  */
  function Sort(s: seq<string>): (r: seq<string>)
    ensures multiset(r) == multiset(s)
    ensures |r| == |s|
    ensures Sorted(r)
  {
    if s == [] then []
    else
      assert s == [s[0]] + s[1..];
      Insert(s[0], Sort(s[1..]))
  }

  /** The last element of a sorted list is at least every element of it. */
  lemma LastOfSortedIsGreatest(s: seq<string>, x: string)
    requires Sorted(s) && x in s
    ensures LexLe(x, s[|s| - 1])
  {
  }
}
