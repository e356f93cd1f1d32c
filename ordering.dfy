/**
 * Go's string ordering and `sort.Strings`, on `seq<char>`.
 *
 * Go compares strings byte by byte. Dafny's `char` is a Unicode scalar
 * value, so `LessEq` is the lexicographic order on scalar values. It agrees
 * with Go's `<=` on strings that are valid UTF-8, because comparing code
 * points orders them exactly as comparing their UTF-8 encodings does.
 * `sort.Strings` is a library sort; it is modelled by the function `Sort`,
 * which is proved to sort and to permute, and `SortedUnique` shows that any
 * two such results coincide, so the choice of algorithm does not matter.
 */
module StringOrder {

  /** `a <= b`, lexicographic on scalar values: Go's byte order for valid UTF-8. */
  predicate LessEq(a: string, b: string)
    decreases |a|
  {
    |a| == 0 || (|b| > 0 && (a[0] < b[0] || (a[0] == b[0] && LessEq(a[1..], b[1..]))))
  }

  lemma {:induction false} LessEqTotal(a: string, b: string)
    ensures LessEq(a, b) || LessEq(b, a)
    decreases |a|
  {
    if |a| > 0 && |b| > 0 && a[0] == b[0] {
      LessEqTotal(a[1..], b[1..]);
    }
  }

  lemma {:induction false} LessEqAntisymmetric(a: string, b: string)
    requires LessEq(a, b) && LessEq(b, a)
    ensures a == b
    decreases |a|
  {
    if |a| > 0 {
      LessEqAntisymmetric(a[1..], b[1..]);
      assert a == [a[0]] + a[1..] && b == [b[0]] + b[1..];
    }
  }

  lemma {:induction false} LessEqTransitive(a: string, b: string, c: string)
    requires LessEq(a, b) && LessEq(b, c)
    ensures LessEq(a, c)
    decreases |a|
  {
    if |a| > 0 && a[0] == b[0] && b[0] == c[0] {
      LessEqTransitive(a[1..], b[1..], c[1..]);
    }
  }

  /** Every element is `LessEq` every later one. */
  ghost predicate Sorted(s: seq<string>) {
    forall i, j :: 0 <= i < j < |s| ==> LessEq(s[i], s[j])
  }

  /** Insert `x` in front of the first element it is `LessEq`. */
  function Insert(x: string, s: seq<string>): (r: seq<string>)
    ensures multiset(r) == multiset(s) + multiset{x}
  {
    if s == [] then [x]
    else if LessEq(x, s[0]) then [x] + s
    else
      assert s == [s[0]] + s[1..];
      [s[0]] + Insert(x, s[1..])
  }

  lemma {:induction false} InsertSorted(x: string, s: seq<string>)
    requires Sorted(s)
    ensures Sorted(Insert(x, s))
  {
    if s != [] {
      if LessEq(x, s[0]) {
        forall j | 0 <= j < |s| ensures LessEq(x, s[j]) {
          if j > 0 { LessEqTransitive(x, s[0], s[j]); }
        }
        SortedCons(x, s);
      } else {
        LessEqTotal(x, s[0]);
        var tail := s[1..];
        var t := Insert(x, tail);
        InsertSorted(x, tail);
        assert forall k :: 0 <= k < |tail| ==> tail[k] == s[k + 1];
        BoundedPermutation(s[0], x, tail, t);
        SortedCons(s[0], t);
      }
    }
  }

  /** `h` in front of a sorted sequence whose every element it is `LessEq`. */
  lemma SortedCons(h: string, t: seq<string>)
    requires Sorted(t) && forall j :: 0 <= j < |t| ==> LessEq(h, t[j])
    ensures Sorted([h] + t)
  {
    var r := [h] + t;
    forall i, j | 0 <= i < j < |r| ensures LessEq(r[i], r[j]) {
      assert r[j] == t[j - 1];
      if i > 0 {
        assert r[i] == t[i - 1];
      }
    }
  }

  /** A bound below `x` and every element of `u` is below every element of `t`, a permutation of `u + [x]`. */
  lemma BoundedPermutation(b: string, x: string, u: seq<string>, t: seq<string>)
    requires LessEq(b, x) && forall k :: 0 <= k < |u| ==> LessEq(b, u[k])
    requires multiset(t) == multiset(u) + multiset{x}
    ensures forall j :: 0 <= j < |t| ==> LessEq(b, t[j])
  {
    forall j | 0 <= j < |t| ensures LessEq(b, t[j]) {
      assert t[j] in multiset(t);
      if t[j] != x {
        assert t[j] in multiset(u);
        var k :| 0 <= k < |u| && u[k] == t[j];
      }
    }
  }

  /** Insertion sort: the model of Go's `sort.Strings`. */
  function Sort(s: seq<string>): (r: seq<string>)
    ensures Sorted(r)
    ensures multiset(r) == multiset(s)
  {
    if s == [] then []
    else
      var t := Sort(s[1..]);
      InsertSorted(s[0], t);
      assert s == [s[0]] + s[1..];
      Insert(s[0], t)
  }

  /** Two sorted sequences with the same elements are equal. */
  lemma {:induction false} SortedUnique(a: seq<string>, b: seq<string>)
    requires Sorted(a) && Sorted(b) && multiset(a) == multiset(b)
    ensures a == b
    decreases |a|
  {
    assert |a| == |multiset(a)| == |multiset(b)| == |b|;
    if |a| > 0 {
      SortedHeadsEqual(a, b);
      DropHead(a);
      DropHead(b);
      SortedUnique(a[1..], b[1..]);
      assert a == [a[0]] + a[1..] && b == [b[0]] + b[1..];
    }
  }

  lemma SortedHeadsEqual(a: seq<string>, b: seq<string>)
    requires Sorted(a) && Sorted(b) && multiset(a) == multiset(b) && |a| > 0 && |b| > 0
    ensures a[0] == b[0]
  {
    assert a[0] in multiset(b) && b[0] in multiset(a);
    var j :| 0 <= j < |b| && b[j] == a[0];
    var k :| 0 <= k < |a| && a[k] == b[0];
    assert LessEq(b[0], a[0]) by { if j > 0 { assert LessEq(b[0], b[j]); } else { LessEqTotal(a[0], a[0]); } }
    assert LessEq(a[0], b[0]) by { if k > 0 { assert LessEq(a[0], a[k]); } else { LessEqTotal(a[0], a[0]); } }
    LessEqAntisymmetric(a[0], b[0]);
  }

  lemma DropHead(a: seq<string>)
    requires |a| > 0
    ensures multiset(a[1..]) == multiset(a) - multiset{a[0]}
  {
    assert a == [a[0]] + a[1..];
  }

  /** The elements of a finite set in some order, each once. */
  ghost function SetToSeq(s: set<string>): (r: seq<string>)
    ensures multiset(r) == multiset(s)
    decreases s
  {
    if s == {} then []
    else
      var x :| x in s;
      assert s == (s - {x}) + {x};
      [x] + SetToSeq(s - {x})
  }
}
