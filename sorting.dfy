/** Rust's ordering of `String`s (lexicographic by character, which for
    UTF-8 agrees with byte order), `sort` and `binary_search` on a list of
    strings, and `remove` at an index. */
module Sorting {

  /** `a <= b` for strings. */
  predicate LessEq(a: string, b: string)
    decreases |a|
  {
    |a| == 0 || (|b| > 0 && (a[0] < b[0] || (a[0] == b[0] && LessEq(a[1..], b[1..]))))
  }

  predicate Less(a: string, b: string) {
    LessEq(a, b) && a != b
  }

  lemma {:induction false} LessEqRefl(a: string)
    ensures LessEq(a, a)
    decreases |a|
  {
    if |a| > 0 {
      LessEqRefl(a[1..]);
    }
  }

  lemma {:induction false} LessEqTotal(a: string, b: string)
    ensures LessEq(a, b) || LessEq(b, a)
    decreases |a|
  {
    if |a| > 0 && |b| > 0 && a[0] == b[0] {
      LessEqTotal(a[1..], b[1..]);
    }
  }

  lemma {:induction false} LessEqTrans(a: string, b: string, c: string)
    requires LessEq(a, b) && LessEq(b, c)
    ensures LessEq(a, c)
    decreases |a|
  {
    if |a| > 0 && a[0] == b[0] && b[0] == c[0] {
      LessEqTrans(a[1..], b[1..], c[1..]);
    }
  }

  lemma {:induction false} LessEqAntisym(a: string, b: string)
    requires LessEq(a, b) && LessEq(b, a)
    ensures a == b
    decreases |a|
  {
    if |a| > 0 {
      LessEqAntisym(a[1..], b[1..]);
      assert a == [a[0]] + a[1..] && b == [b[0]] + b[1..];
    }
  }

  /** Ascending order. */
  ghost predicate Sorted(s: seq<string>) {
    forall i, j :: 0 <= i < j < |s| ==> LessEq(s[i], s[j])
  }

  /** Inserting into a sorted list in front of the first larger element. */
  function Insert(x: string, s: seq<string>): (r: seq<string>)
    requires Sorted(s)
    ensures Sorted(r) && multiset(r) == multiset(s) + multiset{x} && |r| == |s| + 1
    decreases |s|
  {
    if |s| == 0 then [x]
    else if LessEq(x, s[0]) then
      assert forall j :: 0 <= j < |s| ==> LessEq(x, s[j]) by {
        forall j | 0 <= j < |s| ensures LessEq(x, s[j]) {
          if j > 0 { LessEqTrans(x, s[0], s[j]); }
        }
      }
      [x] + s
    else
      LessEqTotal(x, s[0]);
      var t := Insert(x, s[1..]);
      assert s == [s[0]] + s[1..];
      assert forall j :: 0 <= j < |t| ==> LessEq(s[0], t[j]) by {
        forall j | 0 <= j < |t| ensures LessEq(s[0], t[j]) {
          assert t[j] in multiset(t);
          assert t[j] == x || t[j] in multiset(s[1..]);
          if t[j] != x {
            var k :| 0 <= k < |s[1..]| && s[1..][k] == t[j];
            assert s[k + 1] == t[j];
          }
        }
      }
      [s[0]] + t
  }

  /** `sort`: a sorted permutation of the input. */
  function Sort(s: seq<string>): (r: seq<string>)
    ensures Sorted(r) && multiset(r) == multiset(s) && |r| == |s|
    decreases |s|
  {
    if |s| == 0 then []
    else
      assert s == [s[0]] + s[1..];
      Insert(s[0], Sort(s[1..]))
  }

  /** A list has only one sorted arrangement, so `Sort` stands for whichever
      sorting algorithm the library uses. */
  lemma {:induction false} SortedUnique(a: seq<string>, b: seq<string>)
    requires Sorted(a) && Sorted(b) && multiset(a) == multiset(b)
    ensures a == b
    decreases |a|
  {
    assert |a| == |multiset(a)| == |b|;
    if |a| > 0 {
      assert a[0] in multiset(b) && b[0] in multiset(a);
      HeadLeast(b, a[0]);
      HeadLeast(a, b[0]);
      LessEqAntisym(a[0], b[0]);
      SortedTail(a);
      SortedTail(b);
      TailMultiset(a);
      TailMultiset(b);
      SortedUnique(a[1..], b[1..]);
      assert a == [a[0]] + a[1..] && b == [b[0]] + b[1..];
    }
  }

  /** The head of a sorted list is at most any of its elements. */
  lemma HeadLeast(s: seq<string>, x: string)
    requires Sorted(s) && x in multiset(s)
    ensures |s| > 0 && LessEq(s[0], x)
  {
    var i :| 0 <= i < |s| && s[i] == x;
    if i == 0 {
      LessEqRefl(x);
    } else {
      assert LessEq(s[0], s[i]);
    }
  }

  lemma SortedTail(s: seq<string>)
    requires Sorted(s) && |s| > 0
    ensures Sorted(s[1..])
  {
    forall i, j | 0 <= i < j < |s| - 1 ensures LessEq(s[1..][i], s[1..][j]) {
      assert s[1..][i] == s[i + 1] && s[1..][j] == s[j + 1];
    }
  }

  lemma TailMultiset(s: seq<string>)
    requires |s| > 0
    ensures multiset(s[1..]) == multiset(s) - multiset{s[0]}
  {
    assert s == [s[0]] + s[1..];
  }

  /** `binary_search`: the index of an element equal to `x`, or the place
      `x` would be inserted at. */
  function BinarySearch(s: seq<string>, x: string): (r: SearchResult)
    requires Sorted(s)
    ensures r.Found? <==> x in s
    ensures r.Found? ==> r.index < |s| && s[r.index] == x
    ensures r.NotFound? ==>
      && r.index <= |s|
      && (forall i :: 0 <= i < r.index ==> Less(s[i], x))
      && (forall i :: r.index <= i < |s| ==> Less(x, s[i]))
  {
    Search(s, x, 0, |s|)
  }

  datatype SearchResult = Found(index: nat) | NotFound(index: nat)

  function Search(s: seq<string>, x: string, lo: nat, hi: nat): (r: SearchResult)
    requires Sorted(s) && lo <= hi <= |s|
    requires forall i :: 0 <= i < lo ==> Less(s[i], x)
    requires forall i :: hi <= i < |s| ==> Less(x, s[i])
    ensures r.Found? <==> x in s
    ensures r.Found? ==> r.index < |s| && s[r.index] == x
    ensures r.NotFound? ==>
      && r.index <= |s|
      && (forall i :: 0 <= i < r.index ==> Less(s[i], x))
      && (forall i :: r.index <= i < |s| ==> Less(x, s[i]))
    decreases hi - lo
  {
    if lo == hi then
      forall i | 0 <= i < |s| ensures s[i] != x {
        if i < lo { assert Less(s[i], x); } else { assert Less(x, s[i]); }
      }
      NotFound(lo)
    else
      var mid := lo + (hi - lo) / 2;
      if s[mid] == x then Found(mid)
      else if LessEq(s[mid], x) then
        assert forall i :: 0 <= i <= mid ==> Less(s[i], x) by {
          forall i | 0 <= i <= mid ensures Less(s[i], x) {
            if i < mid {
              LessEqTrans(s[i], s[mid], x);
              if s[i] == x { LessEqAntisym(s[mid], x); }
            }
          }
        }
        Search(s, x, mid + 1, hi)
      else
        LessEqTotal(s[mid], x);
        assert forall i :: mid <= i < |s| ==> Less(x, s[i]) by {
          forall i | mid <= i < |s| ensures Less(x, s[i]) {
            if i > mid {
              LessEqTrans(x, s[mid], s[i]);
              assert LessEq(s[mid], s[i]);
            }
          }
        }
        Search(s, x, lo, mid)
  }

  /** `remove(i)` */
  function RemoveAt(s: seq<string>, i: nat): (r: seq<string>)
    requires i < |s|
    ensures |r| == |s| - 1 && multiset(r) == multiset(s) - multiset{s[i]}
  {
    assert s == s[..i] + [s[i]] + s[i + 1..];
    s[..i] + s[i + 1..]
  }

  /** In a sorted list it does not matter which of several equal elements is
      removed, so the index `binary_search` lands on does not change the
      outcome. */
  lemma RemoveAnyEqual(s: seq<string>, i: nat, j: nat)
    requires Sorted(s) && i < |s| && j < |s| && s[i] == s[j]
    ensures RemoveAt(s, i) == RemoveAt(s, j)
  {
    if i < j {
      RemoveEqualOrdered(s, i, j);
    } else if j < i {
      RemoveEqualOrdered(s, j, i);
    }
  }

  lemma RemoveEqualOrdered(s: seq<string>, i: nat, j: nat)
    requires Sorted(s) && i < j < |s| && s[i] == s[j]
    ensures RemoveAt(s, i) == RemoveAt(s, j)
  {
    EqualRun(s, i, j);
    RemoveInRun(s, i, j);
  }

  /** Between two equal elements of a sorted list every element is equal. */
  lemma EqualRun(s: seq<string>, i: nat, j: nat)
    requires Sorted(s) && i < j < |s| && s[i] == s[j]
    ensures forall k :: i <= k <= j ==> s[k] == s[i]
  {
    forall k | i < k < j ensures s[k] == s[i] {
      assert LessEq(s[i], s[k]);
      assert LessEq(s[k], s[j]);
      LessEqAntisym(s[k], s[i]);
    }
  }

  lemma RemoveInRun(s: seq<string>, i: nat, j: nat)
    requires i < j < |s|
    requires forall k :: i <= k <= j ==> s[k] == s[i]
    ensures s[..i] + s[i + 1..] == s[..j] + s[j + 1..]
  {
    assert s[i + 1..j + 1] == s[i..j];
    assert s[i + 1..] == s[i + 1..j + 1] + s[j + 1..];
    assert s[..j] == s[..i] + s[i..j];
  }

  /** Removing an element keeps a list sorted. */
  lemma RemoveSorted(s: seq<string>, i: nat)
    requires Sorted(s) && i < |s|
    ensures Sorted(RemoveAt(s, i))
  {
    var r := RemoveAt(s, i);
    forall a, b | 0 <= a < b < |r| ensures LessEq(r[a], r[b]) {
      var a' := if a < i then a else a + 1;
      var b' := if b < i then b else b + 1;
      assert r[a] == s[a'] && r[b] == s[b'];
    }
  }
}
