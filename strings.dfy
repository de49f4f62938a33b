/** Sequence and string operations of Rust's `str` that the gateway relies on:
    `split`, `starts_with`/`strip_prefix`, `ends_with`, `contains`, `trim`,
    `trim_matches` and `join`. They are generic over the element type so that
    the same definitions serve `&str` (characters) and byte strings. */
module Strings {

  /** `s.starts_with(p)` */
  predicate StartsWith<T(==)>(s: seq<T>, p: seq<T>) {
    |p| <= |s| && s[..|p|] == p
  }

  /** `s.ends_with(p)` */
  predicate EndsWith<T(==)>(s: seq<T>, p: seq<T>) {
    |p| <= |s| && s[|s| - |p|..] == p
  }

  /** `s.strip_prefix(p).unwrap_or(s)` */
  function StripPrefixOr<T(==)>(s: seq<T>, p: seq<T>): (r: seq<T>)
    ensures StartsWith(s, p) ==> p + r == s
    ensures !StartsWith(s, p) ==> r == s
  {
    if StartsWith(s, p) then s[|p|..] else s
  }

  /** `d` occurs in `s` starting at index `i` */
  predicate OccursAt<T(==)>(s: seq<T>, d: seq<T>, i: nat) {
    i + |d| <= |s| && s[i..i + |d|] == d
  }

  /** `s.contains(d)` for a sub-sequence `d` */
  predicate Contains<T(==)>(s: seq<T>, d: seq<T>) {
    exists i: nat :: i <= |s| && OccursAt(s, d, i)
  }

  /** `s.split(d)` for a non-empty pattern `d`: the pieces between the leftmost
      non-overlapping occurrences of `d`. There is always at least one piece,
      and the first piece is a prefix of `s`. */
  function Split<T(==)>(s: seq<T>, d: seq<T>): (r: seq<seq<T>>)
    requires |d| > 0
    ensures |r| >= 1
    ensures StartsWith(s, r[0])
    decreases |s|
  {
    if |s| < |d| then [s]
    else if s[..|d|] == d then [[]] + Split(s[|d|..], d)
    else
      var rest := Split(s[1..], d);
      [[s[0]] + rest[0]] + rest[1..]
  }

  /** `parts.join(d)` */
  function Join<T>(parts: seq<seq<T>>, d: seq<T>): seq<T>
    decreases |parts|
  {
    if |parts| == 0 then []
    else if |parts| == 1 then parts[0]
    else parts[0] + d + Join(parts[1..], d)
  }

  /** Concatenation of a sequence of sequences, in order. */
  function Flatten<T>(xs: seq<seq<T>>): seq<T>
    decreases |xs|
  {
    if |xs| == 0 then [] else xs[0] + Flatten(xs[1..])
  }

  lemma FlattenAppend<T>(xs: seq<seq<T>>, ys: seq<seq<T>>)
    ensures Flatten(xs + ys) == Flatten(xs) + Flatten(ys)
    decreases |xs|
  {
    if |xs| == 0 {
      assert xs + ys == ys;
    } else {
      assert (xs + ys)[1..] == xs[1..] + ys;
      FlattenAppend(xs[1..], ys);
    }
  }

  lemma JoinConsHead<T>(x: seq<T>, p: seq<T>, t: seq<seq<T>>, d: seq<T>)
    ensures Join([x + p] + t, d) == x + Join([p] + t, d)
  {
    if |t| > 0 {
      assert ([x + p] + t)[1..] == t;
      assert ([p] + t)[1..] == t;
    }
  }

  /** Joining the pieces of a split with the same pattern gives back the input. */
  lemma {:induction false} JoinSplit<T>(s: seq<T>, d: seq<T>)
    requires |d| > 0
    ensures Join(Split(s, d), d) == s
    decreases |s|
  {
    if |s| < |d| {
    } else if s[..|d|] == d {
      var rest := Split(s[|d|..], d);
      JoinSplit(s[|d|..], d);
      assert ([[]] + rest)[1..] == rest;
      assert s == d + s[|d|..];
    } else {
      var rest := Split(s[1..], d);
      JoinSplit(s[1..], d);
      JoinConsHead([s[0]], rest[0], rest[1..], d);
      assert [rest[0]] + rest[1..] == rest;
      assert s == [s[0]] + s[1..];
    }
  }

  /** No piece of a split contains the pattern. */
  lemma {:induction false} SplitPiecesFree<T>(s: seq<T>, d: seq<T>)
    requires |d| > 0
    ensures forall k :: 0 <= k < |Split(s, d)| ==> !Contains(Split(s, d)[k], d)
    decreases |s|
  {
    var r := Split(s, d);
    if |s| < |d| {
      forall i: nat | i <= |s| ensures !OccursAt(s, d, i) { }
    } else if s[..|d|] == d {
      SplitPiecesFree(s[|d|..], d);
      var rest := Split(s[|d|..], d);
      assert r == [[]] + rest;
      forall k | 0 <= k < |r| ensures !Contains(r[k], d) {
        if k == 0 {
          assert r[0] == [];
        } else {
          assert r[k] == rest[k - 1];
        }
      }
    } else {
      SplitPiecesFree(s[1..], d);
      var rest := Split(s[1..], d);
      var head := [s[0]] + rest[0];
      assert r == [head] + rest[1..];
      forall i: nat | i <= |head| ensures !OccursAt(head, d, i) {
        if i == 0 {
          // rest[0] is a prefix of s[1..], so head is a prefix of s, which does not start with d
          assert StartsWith(s, head);
        } else if OccursAt(head, d, i) {
          assert head[i..i + |d|] == rest[0][i - 1..i - 1 + |d|];
          assert OccursAt(rest[0], d, i - 1);
          assert false;
        }
      }
      forall k | 0 <= k < |r| ensures !Contains(r[k], d) {
        if k > 0 {
          assert r[k] == rest[k];
        }
      }
    }
  }

  /** A prefix one longer is the prefix and the next element. */
  lemma PrefixSnoc<T>(s: seq<T>, i: nat)
    requires i < |s|
    ensures s[..i + 1][..i] == s[..i] && s[..i + 1] == s[..i] + [s[i]]
  {
  }

  /** A non-empty sequence is its front and its last element. */
  lemma FrontLast<T>(s: seq<T>)
    requires |s| > 0
    ensures s == s[..|s| - 1] + [s[|s| - 1]]
  {
  }

  /** A split on a one-element pattern that does not occur leaves one piece. */
  lemma {:induction false} SplitCharAbsent<T>(s: seq<T>, c: T)
    requires c !in s
    ensures Split(s, [c]) == [s]
    decreases |s|
  {
    if |s| >= 1 {
      assert s[..1] != [c] by { assert s[0] != c; }
      SplitCharAbsent(s[1..], c);
      assert [s[0]] + s[1..] == s;
    }
  }

  /** A split on a one-element pattern cuts at its first occurrence. */
  lemma {:induction false} SplitCharFirst<T>(k: seq<T>, c: T, t: seq<T>)
    requires c !in k
    ensures Split(k + [c] + t, [c]) == [k] + Split(t, [c])
    decreases |k|
  {
    var s := k + [c] + t;
    if |k| == 0 {
      assert s[..1] == [c];
      assert s[1..] == t;
    } else {
      assert s[..1] != [c] by { assert s[0] == k[0] != c; }
      assert s[1..] == k[1..] + [c] + t;
      SplitCharFirst(k[1..], c, t);
      assert [k[0]] + k[1..] == k;
    }
  }

  /** A split on a one-element pattern has a second piece exactly when the
      element occurs. */
  lemma SplitCharMany<T>(s: seq<T>, c: T)
    ensures |Split(s, [c])| >= 2 <==> c in s
  {
    if c in s {
      var i :| 0 <= i < |s| && s[i] == c;
      var j := FirstIndex(s, c, i);
      assert s == s[..j] + [c] + s[j + 1..];
      SplitCharFirst(s[..j], c, s[j + 1..]);
    } else {
      SplitCharAbsent(s, c);
    }
  }

  /** The first piece of a split on a one-element pattern is the prefix
      before the element's first occurrence. */
  lemma SplitHead<T>(s: seq<T>, c: T)
    ensures var h := Split(s, [c])[0];
            c !in h && StartsWith(s, h) && (|h| < |s| ==> s[|h|] == c)
  {
    if c in s {
      var i :| 0 <= i < |s| && s[i] == c;
      var j := FirstIndex(s, c, i);
      assert s == s[..j] + [c] + s[j + 1..];
      SplitCharFirst(s[..j], c, s[j + 1..]);
    } else {
      SplitCharAbsent(s, c);
    }
  }

  /** The index of the first `c` in `s`, given some index holding `c`. */
  function FirstIndex<T(==)>(s: seq<T>, c: T, i: nat): (j: nat)
    requires i < |s| && s[i] == c
    ensures j <= i && s[j] == c && c !in s[..j]
  {
    if c in s[..i] then
      var k :| 0 <= k < i && s[k] == c;
      FirstIndex(s, c, k)
    else i
  }

  /** Splitting a join on a one-element pattern gives the parts back when no
      part holds the element. */
  lemma {:induction false} SplitJoin<T>(parts: seq<seq<T>>, c: T)
    requires |parts| >= 1
    requires forall k :: 0 <= k < |parts| ==> c !in parts[k]
    ensures Split(Join(parts, [c]), [c]) == parts
    decreases |parts|
  {
    if |parts| == 1 {
      SplitCharAbsent(parts[0], c);
    } else {
      SplitJoin(parts[1..], c);
      SplitCharFirst(parts[0], c, Join(parts[1..], [c]));
      assert [parts[0]] + parts[1..] == parts;
    }
  }

  /** No piece of a split on a one-element pattern holds the element. */
  lemma SplitCharFree<T>(s: seq<T>, c: T)
    ensures forall k :: 0 <= k < |Split(s, [c])| ==> c !in Split(s, [c])[k]
  {
    SplitPiecesFree(s, [c]);
    forall k | 0 <= k < |Split(s, [c])| ensures c !in Split(s, [c])[k] {
      var piece := Split(s, [c])[k];
      if c in piece {
        var i :| 0 <= i < |piece| && piece[i] == c;
        assert OccursAt(piece, [c], i);
      }
    }
  }

  /** A split of a sequence that ends in the pattern's element ends in an
      empty piece. */
  lemma {:induction false} SplitCharLastEmpty<T>(s: seq<T>, c: T)
    requires |s| > 0 && s[|s| - 1] == c
    ensures Split(s, [c])[|Split(s, [c])| - 1] == []
    decreases |s|
  {
    var j := FirstIndex(s, c, |s| - 1);
    var t := s[j + 1..];
    assert s == s[..j] + [c] + t;
    SplitCharFirst(s[..j], c, t);
    if |t| > 0 {
      assert t[|t| - 1] == c;
      SplitCharLastEmpty(t, c);
    } else {
      assert Split(t, [c]) == [[]];
    }
  }

  /** An element absent from a join is absent from every part. */
  lemma {:induction false} JoinExcludes<T>(parts: seq<seq<T>>, d: seq<T>, c: T)
    requires c !in Join(parts, d)
    ensures forall k :: 0 <= k < |parts| ==> c !in parts[k]
    decreases |parts|
  {
    if |parts| >= 2 {
      JoinExcludes(parts[1..], d, c);
      forall k | 0 <= k < |parts| ensures c !in parts[k] {
        if k > 0 {
          assert parts[k] == parts[1..][k - 1];
        }
      }
    }
  }

  /** An element absent from the parts and the separator is absent from the
      join. */
  lemma {:induction false} JoinAvoids<T>(parts: seq<seq<T>>, d: seq<T>, c: T)
    requires c !in d
    requires forall k :: 0 <= k < |parts| ==> c !in parts[k]
    ensures c !in Join(parts, d)
    decreases |parts|
  {
    if |parts| >= 2 {
      assert forall k :: 0 <= k < |parts| - 1 ==> parts[1..][k] == parts[k + 1];
      JoinAvoids(parts[1..], d, c);
    }
  }

  /** A join of two or more parts ends with the separator and the last part. */
  lemma {:induction false} JoinLast<T>(parts: seq<seq<T>>, d: seq<T>)
    requires |parts| >= 2
    ensures Join(parts, d) == Join(parts[..|parts| - 1], d) + d + parts[|parts| - 1]
    decreases |parts|
  {
    var n := |parts|;
    if n > 2 {
      JoinLast(parts[1..], d);
      assert parts[1..][..n - 2] == parts[..n - 1][1..];
      assert parts[1..][n - 2] == parts[n - 1];
    } else {
      assert parts[..1] == [parts[0]];
      assert parts[2..] == [];
      assert parts[1..] == [parts[1]];
    }
  }

  /** Drops the longest prefix whose elements all satisfy `trimmed`. */
  function TrimStart<T>(s: seq<T>, trimmed: T -> bool): (r: seq<T>)
    ensures |r| <= |s| && r == s[|s| - |r|..]
    ensures forall i :: 0 <= i < |s| - |r| ==> trimmed(s[i])
    ensures |r| > 0 ==> !trimmed(r[0])
    decreases |s|
  {
    if |s| > 0 && trimmed(s[0]) then TrimStart(s[1..], trimmed) else s
  }

  /** Drops the longest suffix whose elements all satisfy `trimmed`. */
  function TrimEnd<T>(s: seq<T>, trimmed: T -> bool): (r: seq<T>)
    ensures |r| <= |s| && r == s[..|r|]
    ensures forall i :: |r| <= i < |s| ==> trimmed(s[i])
    ensures |r| > 0 ==> !trimmed(r[|r| - 1])
    decreases |s|
  {
    if |s| > 0 && trimmed(s[|s| - 1]) then TrimEnd(s[..|s| - 1], trimmed) else s
  }

  /** `trim_matches` with a predicate: both ends. */
  function Trim<T>(s: seq<T>, trimmed: T -> bool): seq<T> {
    TrimEnd(TrimStart(s, trimmed), trimmed)
  }

  /** Trimming leaves a sequence alone when neither end is trimmed. */
  lemma TrimUntouched<T>(s: seq<T>, trimmed: T -> bool)
    requires |s| == 0 || (!trimmed(s[0]) && !trimmed(s[|s| - 1]))
    ensures Trim(s, trimmed) == s
  {
  }

  /** Unicode `White_Space`, the set used by Rust's `char::is_whitespace`,
      `str::trim` and the regex class `\s`. */
  predicate IsWhitespace(c: char) {
    ('\t' <= c <= '\r') || c == ' ' || c == '\U{0085}' || c == '\U{00A0}'
    || c == '\U{1680}' || ('\U{2000}' <= c <= '\U{200A}') || c == '\U{2028}'
    || c == '\U{2029}' || c == '\U{202F}' || c == '\U{205F}' || c == '\U{3000}'
  }
}
