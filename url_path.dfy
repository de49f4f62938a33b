/** The path parser of the WHATWG URL Standard (its "path start state" and
    "path state") as `Url::set_path` runs it on a URL that has a host. ASCII
    tab and newline are dropped, '\' separates segments in a special URL as
    '/' does, and "." and ".." segments, also when written with "%2e", are
    resolved against the segments before them. */
module UrlPath {
  import Strings

  predicate IsTabOrNewline(c: char) {
    c == '\t' || c == '\n' || c == '\r'
  }

  /** No character the parser drops or reads as a separator other than '/'. */
  predicate Clean(s: string, special: bool) {
    '\t' !in s && '\n' !in s && '\r' !in s && (special ==> '\\' !in s)
  }

  /** The input without its ASCII tabs and newlines. */
  function StripTabs(s: string): (r: string)
    ensures |r| <= |s|
    ensures '\t' !in r && '\n' !in r && '\r' !in r
    ensures '\t' !in s && '\n' !in s && '\r' !in s ==> r == s
    ensures |s| > 0 && !IsTabOrNewline(s[0]) ==> |r| > 0 && r[0] == s[0]
    ensures |s| > 0 && !IsTabOrNewline(s[|s| - 1]) ==> |r| > 0 && r[|r| - 1] == s[|s| - 1]
    decreases |s|
  {
    if |s| == 0 then []
    else (if IsTabOrNewline(s[0]) then [] else [s[0]]) + StripTabs(s[1..])
  }

  /** In a special URL every '\' is read as '/'. */
  function Slashes(s: string, special: bool): (r: string)
    ensures |r| == |s|
    ensures special ==> '\\' !in r
    ensures !special || '\\' !in s ==> r == s
    ensures |s| > 0 && s[0] == '/' ==> r[0] == '/'
    ensures |s| > 0 && s[|s| - 1] == '/' ==> r[|r| - 1] == '/'
  {
    seq(|s|, i requires 0 <= i < |s| => if special && s[i] == '\\' then '/' else s[i])
  }

  /** Dropping characters adds none. */
  lemma {:induction false} StripTabsChars(s: string)
    ensures forall c :: c in StripTabs(s) ==> c in s
    decreases |s|
  {
    if |s| > 0 {
      StripTabsChars(s[1..]);
    }
  }

  /** Rewriting '\' adds no character but '/'. */
  lemma {:induction false} SlashesChars(s: string, special: bool)
    ensures forall c :: c in Slashes(s, special) && c != '/' ==> c in s
    decreases |s|
  {
    if |s| > 0 {
      SlashesChars(s[1..], special);
    }
  }

  /** The spellings of a single-dot segment. */
  predicate IsSingleDot(seg: string) {
    seg == "." || seg == "%2e" || seg == "%2E"
  }

  /** The spellings of a double-dot segment. */
  predicate IsDoubleDot(seg: string) {
    || seg == ".." || seg == ".%2e" || seg == ".%2E" || seg == "%2e." || seg == "%2E."
    || seg == "%2e%2e" || seg == "%2e%2E" || seg == "%2E%2e" || seg == "%2E%2E"
  }

  predicate IsDot(seg: string) {
    IsSingleDot(seg) || IsDoubleDot(seg)
  }

  /** One segment of the path state: a double dot removes the last segment,
      a single dot is dropped, and anything else is appended; a dot segment
      that ends the input leaves an empty last segment (a trailing '/'). */
  function Step(path: seq<string>, seg: string, last: bool): seq<string> {
    if IsDoubleDot(seg) then
      (if |path| > 0 then path[..|path| - 1] else path) + (if last then [""] else [])
    else if IsSingleDot(seg) then
      path + (if last then [""] else [])
    else
      path + [seg]
  }

  /** The pieces between the '/' separators, in order. */
  function Pieces(s: string): (r: seq<string>)
    ensures |r| >= 1
  {
    Strings.Split(s, "/")
  }

  /** The path state over the pieces between separators, in order. */
  function Resolve(path: seq<string>, pieces: seq<string>): seq<string>
    decreases |pieces|
  {
    if |pieces| == 0 then path
    else Resolve(Step(path, pieces[0], |pieces| == 1), pieces[1..])
  }

  /** The segments `set_path(p)` leaves, before percent-encoding: the path
      start state takes one leading separator, the rest is split on '/'. */
  function Segments(p: string, special: bool): seq<string> {
    var s := Slashes(StripTabs(p), special);
    Resolve([], Pieces(Strings.StripPrefixOr(s, "/")))
  }

  /** The path `set_path(p)` leaves on a URL with a host. A URL that is not
      special gets the empty path when the input is empty or starts with
      '?' or '#'; otherwise the path is '/' and the segments joined by '/'. */
  function Resolved(p: string, special: bool): (r: string)
    ensures special ==> Strings.StartsWith(r, "/")
    ensures r == [] || r[0] == '/'
  {
    var s := Slashes(StripTabs(p), special);
    if !special && (|s| == 0 || s[0] == '?' || s[0] == '#') then []
    else "/" + Strings.Join(Segments(p, special), "/")
  }

  /** A segment as the parser leaves it. */
  predicate Plain(seg: string, special: bool) {
    !IsDot(seg) && '/' !in seg && Clean(seg, special)
  }

  /** A path the parser leaves as it is: a leading '/', no dropped or
      rewritten character, and no dot segment. */
  predicate PlainPath(p: string, special: bool) {
    && Strings.StartsWith(p, "/") && Clean(p, special)
    && forall k :: 0 <= k < |Pieces(p[1..])| ==> !IsDot(Pieces(p[1..])[k])
  }

  /** With no dot segment the pieces are appended as they are. */
  lemma {:induction false} ResolveAppend(path: seq<string>, pieces: seq<string>)
    requires forall k :: 0 <= k < |pieces| ==> !IsDot(pieces[k])
    ensures Resolve(path, pieces) == path + pieces
    decreases |pieces|
  {
    if |pieces| > 0 {
      assert forall k :: 0 <= k < |pieces| - 1 ==> pieces[1..][k] == pieces[k + 1];
      ResolveAppend(path + [pieces[0]], pieces[1..]);
      assert path + [pieces[0]] + pieces[1..] == path + pieces;
    }
  }

  /** Resolving plain pieces onto plain segments gives plain segments. */
  lemma {:induction false} ResolvePlain(path: seq<string>, pieces: seq<string>, special: bool)
    requires forall k :: 0 <= k < |path| ==> Plain(path[k], special)
    requires forall k :: 0 <= k < |pieces| ==> '/' !in pieces[k] && Clean(pieces[k], special)
    ensures forall k :: 0 <= k < |Resolve(path, pieces)| ==> Plain(Resolve(path, pieces)[k], special)
    decreases |pieces|
  {
    if |pieces| > 0 {
      var next := Step(path, pieces[0], |pieces| == 1);
      assert forall k :: 0 <= k < |next| ==> Plain(next[k], special) by {
        forall k | 0 <= k < |next| ensures Plain(next[k], special) {
          if k < |path| && (!IsDoubleDot(pieces[0]) || k < |path| - 1) {
            assert next[k] == path[k];
          }
        }
      }
      assert forall k :: 0 <= k < |pieces| - 1 ==> pieces[1..][k] == pieces[k + 1];
      ResolvePlain(next, pieces[1..], special);
    }
  }

  /** The last segment comes from the last piece: empty when that is a dot
      segment, the piece itself otherwise. */
  lemma {:induction false} ResolveLast(path: seq<string>, pieces: seq<string>)
    requires |pieces| >= 1
    ensures var r := Resolve(path, pieces);
            |r| >= 1 && r[|r| - 1] == if IsDot(pieces[|pieces| - 1]) then "" else pieces[|pieces| - 1]
    decreases |pieces|
  {
    if |pieces| > 1 {
      ResolveLast(Step(path, pieces[0], false), pieces[1..]);
    }
  }

  /** The pieces of a clean text are clean and hold no '/'. */
  lemma PiecesPlain(t: string, special: bool)
    requires Clean(t, special)
    ensures forall k :: 0 <= k < |Pieces(t)| ==>
              '/' !in Pieces(t)[k] && Clean(Pieces(t)[k], special)
  {
    var pieces := Pieces(t);
    Strings.SplitCharFree(t, '/');
    Strings.JoinSplit(t, "/");
    Strings.JoinExcludes(pieces, "/", '\t');
    Strings.JoinExcludes(pieces, "/", '\n');
    Strings.JoinExcludes(pieces, "/", '\r');
    if special {
      Strings.JoinExcludes(pieces, "/", '\\');
    }
  }

  /** '/' and plain segments make a clean text. */
  lemma JoinClean(segs: seq<string>, special: bool)
    requires forall k :: 0 <= k < |segs| ==> Plain(segs[k], special)
    ensures Clean("/" + Strings.Join(segs, "/"), special)
  {
    Strings.JoinAvoids(segs, "/", '\t');
    Strings.JoinAvoids(segs, "/", '\n');
    Strings.JoinAvoids(segs, "/", '\r');
    if special {
      Strings.JoinAvoids(segs, "/", '\\');
    }
  }

  /** The input after the path start state is clean. */
  lemma InputClean(p: string, special: bool)
    ensures Clean(Strings.StripPrefixOr(Slashes(StripTabs(p), special), "/"), special)
  {
    var s := Slashes(StripTabs(p), special);
    var t := Strings.StripPrefixOr(s, "/");
    StripTabsChars(p);
    SlashesChars(StripTabs(p), special);
    assert forall c :: c in t ==> c in s by {
      if Strings.StartsWith(s, "/") {
        assert forall i :: 0 <= i < |t| ==> t[i] == s[i + 1];
      }
    }
  }

  /** Whatever the input, the path set is plain, or the empty path of a URL
      that is not special. */
  lemma ResolvedIsPlain(p: string, special: bool)
    ensures PlainPath(Resolved(p, special), special) || (!special && Resolved(p, special) == [])
  {
    var s := Slashes(StripTabs(p), special);
    if special || !(|s| == 0 || s[0] == '?' || s[0] == '#') {
      var t := Strings.StripPrefixOr(s, "/");
      var pieces := Pieces(t);
      var segs := Segments(p, special);
      InputClean(p, special);
      PiecesPlain(t, special);
      ResolvePlain([], pieces, special);
      ResolveLast([], pieces);
      JoinClean(segs, special);
      var r := Resolved(p, special);
      assert r[1..] == Strings.Join(segs, "/");
      Strings.SplitJoin(segs, '/');
    }
  }

  /** A plain path is left as it is. */
  lemma PlainUnchanged(p: string, special: bool)
    requires PlainPath(p, special)
    ensures Resolved(p, special) == p
  {
    var s := Slashes(StripTabs(p), special);
    assert s == p;
    assert Strings.StripPrefixOr(s, "/") == p[1..];
    var pieces := Pieces(p[1..]);
    ResolveAppend([], pieces);
    assert [] + pieces == pieces;
    Strings.JoinSplit(p[1..], "/");
    assert "/" + p[1..] == p;
  }

  /** `set_path(p)` leaves exactly a plain path, or the empty path of a URL
      that is not special, as it is. */
  lemma ResolvedFixed(p: string, special: bool)
    ensures Resolved(p, special) == p <==> PlainPath(p, special) || (!special && p == [])
  {
    if PlainPath(p, special) {
      PlainUnchanged(p, special);
    }
    ResolvedIsPlain(p, special);
  }

  /** Setting the path a second time changes nothing. */
  lemma ResolvedIdempotent(p: string, special: bool)
    ensures Resolved(Resolved(p, special), special) == Resolved(p, special)
  {
    ResolvedIsPlain(p, special);
    ResolvedFixed(Resolved(p, special), special);
  }

  /** The path set from an input whose normal form is '/' and `rest`. */
  lemma ResolvedOf(p: string, special: bool, rest: string)
    requires Slashes(StripTabs(p), special) == "/" + rest
    ensures Resolved(p, special) == "/" + Strings.Join(Resolve([], Pieces(rest)), "/")
  {
    var s := Slashes(StripTabs(p), special);
    assert Strings.StartsWith(s, "/") && s[1..] == rest;
    assert Strings.StripPrefixOr(s, "/") == rest;
    assert Segments(p, special) == Resolve([], Pieces(rest));
    assert !(|s| == 0 || s[0] == '?' || s[0] == '#');
  }

  /** A clean input is its own normal form. */
  lemma Normalised(p: string, special: bool)
    requires Clean(p, special)
    ensures Slashes(StripTabs(p), special) == p
  {
  }

  lemma CleanAppend(x: string, y: string, special: bool)
    ensures Clean(x + y, special) <==> Clean(x, special) && Clean(y, special)
  {
  }

  lemma CleanLiterals(special: bool)
    ensures Clean("/", special) && Clean("/../../", special) && Clean("\\", false)
  {
  }

  /** A path that starts and ends with '/' still ends with '/'. */
  lemma TrailingSlash(p: string, special: bool)
    requires Strings.StartsWith(p, "/") && Strings.EndsWith(p, "/")
    ensures Strings.EndsWith(Resolved(p, special), "/")
  {
    var s := Slashes(StripTabs(p), special);
    EndsKept(p, special);
    assert s == "/" + s[1..];
    ResolvedOf(p, special, s[1..]);
    TrailingSegments(s[1..]);
  }

  /** The normal form keeps a leading and a trailing '/'. */
  lemma EndsKept(p: string, special: bool)
    requires Strings.StartsWith(p, "/") && Strings.EndsWith(p, "/")
    ensures var s := Slashes(StripTabs(p), special);
            |s| > 0 && s[0] == '/' && (|s| == 1 || s[|s| - 1] == '/')
  {
    assert p[0] == '/' && p[|p| - 1] == '/';
  }

  /** A text that is empty or ends with '/' serialises with a trailing '/'. */
  lemma TrailingSegments(t: string)
    requires |t| == 0 || t[|t| - 1] == '/'
    ensures Strings.EndsWith("/" + Strings.Join(Resolve([], Pieces(t)), "/"), "/")
  {
    LastPieceEmpty(t);
    TrailingPieces(Pieces(t));
  }

  lemma TrailingPieces(pieces: seq<string>)
    requires |pieces| >= 1 && |pieces[|pieces| - 1]| == 0
    ensures Strings.EndsWith("/" + Strings.Join(Resolve([], pieces), "/"), "/")
  {
    LastSegmentEmpty(pieces);
    SlashJoinEnds(Resolve([], pieces));
  }

  lemma LastSegmentEmpty(pieces: seq<string>)
    requires |pieces| >= 1 && |pieces[|pieces| - 1]| == 0
    ensures |Resolve([], pieces)| >= 1 && |Resolve([], pieces)[|Resolve([], pieces)| - 1]| == 0
  {
    ResolveLast([], pieces);
    assert !IsDot("");
  }

  /** The last piece of a text that is empty or ends with '/' is empty. */
  lemma LastPieceEmpty(t: string)
    requires |t| == 0 || t[|t| - 1] == '/'
    ensures |Pieces(t)[|Pieces(t)| - 1]| == 0
  {
    if |t| > 0 {
      Strings.SplitCharLastEmpty(t, '/');
    }
  }

  /** Segments whose last is empty serialise with a trailing '/'. */
  lemma SlashJoinEnds(segs: seq<string>)
    requires |segs| >= 1 && |segs[|segs| - 1]| == 0
    ensures Strings.EndsWith("/" + Strings.Join(segs, "/"), "/")
  {
    var j := Strings.Join(segs, "/");
    if |segs| >= 2 {
      Strings.JoinLast(segs, "/");
      assert j[|j| - 1] == '/';
    } else {
      assert j == "";
    }
    var r := "/" + j;
    assert r[|r| - 1] == '/';
    assert r[|r| - 1..] == "/";
  }

  lemma {:induction false} SlashesAppend(x: string, y: string, special: bool)
    ensures Slashes(x + y, special) == Slashes(x, special) + Slashes(y, special)
    decreases |x|
  {
    if |x| > 0 {
      assert (x + y)[1..] == x[1..] + y;
      SlashesAppend(x[1..], y, special);
    } else {
      assert x + y == y;
    }
  }

  /** ".." climbs one segment and stops at the root: "/a/../../x" becomes
      "/x" for any plain segments `a` and `x`. */
  lemma ClimbPastRoot(a: string, x: string, special: bool)
    requires Plain(a, special) && Plain(x, special)
    ensures Resolved("/" + a + "/../../" + x, special) == "/" + x
  {
    var rest := a + "/../../" + x;
    var p := "/" + rest;
    assert p == "/" + a + "/../../" + x;
    CleanLiterals(special);
    CleanAppend(a, "/../../", special);
    CleanAppend(a + "/../../", x, special);
    CleanAppend("/", rest, special);
    Normalised(p, special);
    ResolvedOf(p, special, rest);
    ClimbSplit(a, x);
    ClimbPieces(a, x);
    assert Strings.Join([x], "/") == x;
  }

  lemma ClimbSplit(a: string, x: string)
    requires '/' !in a && '/' !in x
    ensures Pieces(a + "/../../" + x) == [a, "..", "..", x]
  {
    var dd := "..";
    assert a + "/../../" + x == a + ['/'] + (dd + ['/'] + (dd + ['/'] + x));
    Strings.SplitCharFirst(a, '/', dd + ['/'] + (dd + ['/'] + x));
    Strings.SplitCharFirst(dd, '/', dd + ['/'] + x);
    Strings.SplitCharFirst(dd, '/', x);
    Strings.SplitCharAbsent(x, '/');
  }

  lemma ClimbPieces(a: string, x: string)
    requires !IsDot(a) && !IsDot(x)
    ensures Resolve([], [a, "..", "..", x]) == [x]
  {
    var pieces := [a, "..", "..", x];
    assert Resolve([], pieces) == Resolve([a], pieces[1..]);
    assert Resolve([a], pieces[1..]) == Resolve([], pieces[2..]);
    assert Resolve([], pieces[2..]) == Resolve([], pieces[3..]);
    assert Resolve([], pieces[3..]) == Resolve([x], []);
  }

  /** The pieces of "a/b" for segments without '/'. */
  lemma SplitTwo(a: string, b: string)
    requires '/' !in a && '/' !in b
    ensures Pieces(a + "/" + b) == [a, b]
  {
    assert a + "/" + b == a + ['/'] + b;
    Strings.SplitCharFirst(a, '/', b);
    Strings.SplitCharAbsent(b, '/');
  }

  /** In a special URL '\' separates segments: "\a\b" becomes "/a/b" for
      any plain segments `a` and `b`. */
  lemma BackslashSeparates(a: string, b: string)
    requires Plain(a, true) && Plain(b, true)
    ensures Resolved("\\" + a + "\\" + b, true) == "/" + a + "/" + b
  {
    BackslashNormal(a, b);
    ResolvedOf("\\" + a + "\\" + b, true, a + "/" + b);
    TwoSegments(a, b);
  }

  lemma BackslashNormal(a: string, b: string)
    requires Plain(a, true) && Plain(b, true)
    ensures Slashes(StripTabs("\\" + a + "\\" + b), true) == "/" + (a + "/" + b)
  {
    var p := "\\" + a + "\\" + b;
    assert StripTabs(p) == p by {
      CleanLiterals(true);
      CleanAppend("\\", a, false);
      CleanAppend("\\" + a, "\\", false);
      CleanAppend("\\" + a + "\\", b, false);
    }
    BackslashSlashes(a, b);
  }

  lemma BackslashSlashes(a: string, b: string)
    requires '\\' !in a && '\\' !in b
    ensures Slashes("\\" + a + "\\" + b, true) == "/" + (a + "/" + b)
  {
    calc {
      Slashes("\\" + a + "\\" + b, true);
    == { SlashesAppend("\\" + a + "\\", b, true); }
      Slashes("\\" + a + "\\", true) + b;
    == { SlashesAppend("\\" + a, "\\", true); BackslashOne(); }
      Slashes("\\" + a, true) + "/" + b;
    == { SlashesAppend("\\", a, true); BackslashOne(); }
      "/" + a + "/" + b;
    }
  }

  lemma BackslashOne()
    ensures Slashes("\\", true) == "/"
  {
    assert "\\"[1..] == [];
  }

  /** Two plain segments are kept as they are. */
  lemma TwoSegments(a: string, b: string)
    requires !IsDot(a) && !IsDot(b) && '/' !in a && '/' !in b
    ensures "/" + Strings.Join(Resolve([], Pieces(a + "/" + b)), "/") == "/" + a + "/" + b
  {
    SplitTwo(a, b);
    ResolveAppend([], [a, b]);
    assert Strings.Join([a, b], "/") == a + "/" + b;
  }

  /** No dot segment holds '\'. */
  lemma DotsNoBackslash(seg: string)
    requires IsDot(seg)
    ensures '\\' !in seg
  {
  }

  /** In a URL that is not special '\' is an ordinary character. */
  lemma BackslashKept(a: string, b: string)
    requires Plain(a, false) && Plain(b, false)
    ensures Resolved("/" + a + "\\" + b, false) == "/" + a + "\\" + b
  {
    var t := a + "\\" + b;
    KeptSegment(a, b);
    OneSegment(t, false);
    Regroup("/", a, "\\", b);
  }

  /** A clean segment without '/' that is not a dot is a path of its own. */
  lemma OneSegment(t: string, special: bool)
    requires '/' !in t && Clean(t, special) && !IsDot(t)
    ensures Resolved("/" + t, special) == "/" + t
  {
    Strings.SplitCharAbsent(t, '/');
    CleanLiterals(special);
    CleanAppend("/", t, special);
    assert ("/" + t)[1..] == t;
    PlainUnchanged("/" + t, special);
  }

  lemma Regroup(w: string, x: string, y: string, z: string)
    ensures w + x + y + z == w + (x + y + z)
  {
  }

  /** `a\b` is one clean segment that is not a dot. */
  lemma KeptSegment(a: string, b: string)
    requires Plain(a, false) && Plain(b, false)
    ensures var t := a + "\\" + b; '/' !in t && Clean(t, false) && !IsDot(t)
  {
    var t := a + "\\" + b;
    CleanLiterals(false);
    CleanAppend(a, "\\", false);
    CleanAppend(a + "\\", b, false);
    assert t[|a|] == '\\';
    if IsDot(t) {
      DotsNoBackslash(t);
    }
  }
}
