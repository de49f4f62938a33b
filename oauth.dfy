/** The token introspection endpoint: Basic client authentication against
    the registered applications, extraction of the token from the form body
    with the pattern `(?i)token\s*=\s*([^&]+)`, and the JSON answer. */
module OAuth {
  import opened Wrappers
  import opened Http
  import Strings

  // ---------------------------------------------------------------
  // extract_token
  // ---------------------------------------------------------------

  const KEY: string := "token"

  /** Under Unicode simple case folding, `c` folds to the lower-case ASCII
      letter `p`: `p` itself, its upper case, or, for 'k', also U+212A
      KELVIN SIGN. No other character folds to a letter of "token". */
  predicate FoldsTo(c: char, p: char) {
    c == p || c as int == p as int - 32 || (p == 'k' && c == '\U{212A}')
  }

  /** The case-insensitive key "token" occurs at index `i`. */
  predicate KeyAt(s: string, i: nat) {
    i + |KEY| <= |s| && FoldsTo(s[i], 't') && FoldsTo(s[i + 1], 'o') && FoldsTo(s[i + 2], 'k')
    && FoldsTo(s[i + 3], 'e') && FoldsTo(s[i + 4], 'n')
  }

  /** `s[a..b]` matches `\s*`. */
  predicate AllWs(s: string, a: nat, b: nat)
    requires a <= b <= |s|
  {
    forall j :: a <= j < b ==> Strings.IsWhitespace(s[j])
  }

  /** `s[a..b]` matches `[^&]*`. */
  predicate NoAmp(s: string, a: nat, b: nat)
    requires a <= b <= |s|
  {
    forall j :: a <= j < b ==> s[j] != '&'
  }

  /** The whole pattern matches `s[i..e]` with the `=` at index `k` and the
      captured group `s[m..e]`: the reference definition of a match. */
  predicate PatternMatch(s: string, i: nat, k: nat, m: nat, e: nat) {
    KeyAt(s, i) && i + |KEY| <= k < |s| && AllWs(s, i + |KEY|, k) && s[k] == '='
    && k + 1 <= m < e <= |s| && AllWs(s, k + 1, m) && NoAmp(s, m, e)
  }

  /** Some match of the pattern starts at index `i`. */
  ghost predicate HasMatchAt(s: string, i: nat) {
    exists k: nat, m: nat, e: nat :: PatternMatch(s, i, k, m, e)
  }

  /** The end of the greedy `\s*` run starting at `j`. */
  function SkipWs(s: string, j: nat): (k: nat)
    requires j <= |s|
    ensures j <= k <= |s| && AllWs(s, j, k)
    ensures k < |s| ==> !Strings.IsWhitespace(s[k])
    decreases |s| - j
  {
    if j < |s| && Strings.IsWhitespace(s[j]) then SkipWs(s, j + 1) else j
  }

  /** The end of the greedy `[^&]*` run starting at `m`. */
  function RunEnd(s: string, m: nat): (e: nat)
    requires m <= |s|
    ensures m <= e <= |s| && NoAmp(s, m, e)
    ensures e < |s| ==> s[e] == '&'
    decreases |s| - m
  {
    if m < |s| && s[m] != '&' then RunEnd(s, m + 1) else m
  }

  /** Whitespace runs are unique: any `\s*` run from `j` that is followed by
      a non-whitespace character, or by the end, ends where `SkipWs` does,
      and no run goes further. */
  lemma WsRunBound(s: string, j: nat, k: nat)
    requires j <= k <= |s| && AllWs(s, j, k)
    ensures k <= SkipWs(s, j)
  {
    var w := SkipWs(s, j);
  }

  /** The capture the matcher reports for a match starting at `i`, as the
      bounds `(m, e)` of the group: the second `\s*` is greedy, and gives back
      one character only when nothing else is left for `[^&]+`. */
  function CaptureAt(s: string, i: nat): (r: Option<(nat, nat)>)
    ensures r.Some? ==> r.value.0 < r.value.1 <= |s| && NoAmp(s, r.value.0, r.value.1)
  {
    if !KeyAt(s, i) then None
    else
      var k := SkipWs(s, i + |KEY|);
      if k == |s| || s[k] != '=' then None
      else
        var m := SkipWs(s, k + 1);
        if m < |s| && s[m] != '&' then Some((m, RunEnd(s, m)))
        else if m > k + 1 then Some((m - 1, m))
        else None
  }

  /** `CaptureAt` against the reference definition: it finds a group exactly
      when some match starts at `i`, the group it reports belongs to a match,
      and among all matches starting at `i` it has the latest start and then
      the latest end (the greedy choice). */
  lemma CaptureAtMatches(s: string, i: nat)
    ensures CaptureAt(s, i).None? <==> !HasMatchAt(s, i)
    ensures CaptureAt(s, i).Some? ==>
              exists k: nat :: PatternMatch(s, i, k, CaptureAt(s, i).value.0, CaptureAt(s, i).value.1)
    ensures CaptureAt(s, i).Some? ==>
              forall k: nat, m: nat, e: nat :: PatternMatch(s, i, k, m, e) ==>
                m < CaptureAt(s, i).value.0 || (m == CaptureAt(s, i).value.0 && e <= CaptureAt(s, i).value.1)
  {
    if KeyAt(s, i) {
      var k := SkipWs(s, i + |KEY|);
      if k == |s| || s[k] != '=' {
        forall k': nat, m: nat, e: nat | PatternMatch(s, i, k', m, e) ensures false {
          WsRunBound(s, i + |KEY|, k');
        }
      } else {
        var m := SkipWs(s, k + 1);
        forall k': nat, m': nat, e': nat | PatternMatch(s, i, k', m', e') ensures k' == k && m' <= m {
          WsRunBound(s, i + |KEY|, k');
          WsRunBound(s, k + 1, m');
        }
        if m < |s| && s[m] != '&' {
          var e := RunEnd(s, m);
          assert PatternMatch(s, i, k, m, e);
        } else if m > k + 1 {
          assert PatternMatch(s, i, k, m - 1, m);
        }
      }
    }
  }

  /** The first index at or after `i` whose flag is set: the matcher tries
      the starting positions from left to right. */
  function Leftmost(found: seq<bool>, i: nat): (r: Option<nat>)
    requires i <= |found|
    ensures r.None? <==> forall j :: i <= j < |found| ==> !found[j]
    ensures r.Some? ==> i <= r.value < |found| && found[r.value]
    ensures r.Some? ==> forall j :: i <= j < r.value ==> !found[j]
    decreases |found| - i
  {
    if i == |found| then None
    else if found[i] then Some(i)
    else Leftmost(found, i + 1)
  }

  /** For each starting position `0..|s|`, whether a match starts there. */
  function Starts(s: string): (found: seq<bool>)
    ensures |found| == |s| + 1
    ensures forall j :: 0 <= j <= |s| ==> found[j] == CaptureAt(s, j).Some?
  {
    seq(|s| + 1, j requires 0 <= j <= |s| => CaptureAt(s, j).Some?)
  }

  /** `extract_token`: the group of the leftmost match of the pattern. It is
      never empty and never holds '&'. */
  function ExtractToken(s: string): (r: Option<string>)
    ensures r.Some? ==> |r.value| > 0 && '&' !in r.value
  {
    match Leftmost(Starts(s), 0)
    case None => None
    case Some(i) =>
      var c := CaptureAt(s, i).value;
      Some(s[c.0..c.1])
  }

  /** `extract_token` finds nothing exactly when the pattern matches nowhere. */
  lemma ExtractTokenNone(s: string)
    ensures ExtractToken(s).None? <==> forall j: nat :: !HasMatchAt(s, j)
  {
    if ExtractToken(s).None? {
      forall j: nat ensures !HasMatchAt(s, j) {
        if j <= |s| { CaptureAtMatches(s, j); }
      }
    } else {
      var i := Leftmost(Starts(s), 0).value;
      CaptureAtMatches(s, i);
    }
  }

  /** What `extract_token` returns is the group of a match that starts
      leftmost, whose `\s*` before the group is longest and whose group is
      then longest: the leftmost-first, greedy reading of the pattern. */
  lemma ExtractTokenLeftmost(s: string)
    requires ExtractToken(s).Some?
    ensures exists i: nat, k: nat, m: nat, e: nat ::
              PatternMatch(s, i, k, m, e) && ExtractToken(s).value == s[m..e]
              && (forall j: nat :: j < i ==> !HasMatchAt(s, j))
              && (forall k': nat, m': nat, e': nat :: PatternMatch(s, i, k', m', e')
                    ==> m' < m || (m' == m && e' <= e))
  {
    var i := Leftmost(Starts(s), 0).value;
    CaptureAtMatches(s, i);
    var m, e := CaptureAt(s, i).value.0, CaptureAt(s, i).value.1;
    var k: nat :| PatternMatch(s, i, k, m, e);
    forall j: nat | j < i ensures !HasMatchAt(s, j) {
      CaptureAtMatches(s, j);
    }
  }

  /** The key is found anywhere in the body: after a prefix holding no key,
      `token=v` yields `v` whenever `v` is a possible group that does not
      start with whitespace. So "access_token=x" gives "x". */
  lemma UnanchoredKey(p: string, v: string)
    requires forall j: nat :: j < |p| ==> !KeyAt(p + KEY + "=" + v, j)
    requires |v| > 0 && '&' !in v && !Strings.IsWhitespace(v[0])
    ensures ExtractToken(p + KEY + "=" + v) == Some(v)
  {
    var s := p + KEY + "=" + v;
    KeyValueLayout(p, v);
    FirstKeyToken(s, |p|);
  }

  /** When the first key of the body stands at `i`, directly followed by '='
      and a value that neither starts with white space nor holds '&', that
      value is the token. */
  lemma FirstKeyToken(s: string, i: nat)
    requires i + |KEY| + 1 < |s| && s[i..i + |KEY|] == KEY && s[i + |KEY|] == '='
    requires !Strings.IsWhitespace(s[i + |KEY| + 1]) && '&' !in s[i + |KEY| + 1..]
    requires forall j: nat :: j < i ==> !KeyAt(s, j)
    ensures ExtractToken(s) == Some(s[i + |KEY| + 1..])
  {
    CaptureOfKey(s, i);
    NoStartBefore(s, i);
    LeftmostIs(Starts(s), i);
    TokenOfLeftmost(s, i, i + |KEY| + 1);
  }

  /** The token is the group of the leftmost capture. */
  lemma TokenOfLeftmost(s: string, i: nat, m: nat)
    requires m <= |s| && Leftmost(Starts(s), 0) == Some(i) && CaptureAt(s, i) == Some((m, |s|))
    ensures ExtractToken(s) == Some(s[m..])
  {
    var c := CaptureAt(s, i).value;
    assert c == (m, |s|);
    assert s[c.0..c.1] == s[m..];
  }

  /** No match starts where no key starts. */
  lemma NoStartBefore(s: string, i: nat)
    requires i <= |s|
    requires forall j: nat :: j < i ==> !KeyAt(s, j)
    ensures forall j :: 0 <= j < i ==> !Starts(s)[j]
  {
    forall j | 0 <= j < i ensures !Starts(s)[j] {
      assert !KeyAt(s, j);
    }
  }

  /** The leftmost set flag is the one with no set flag before it. */
  lemma LeftmostIs(found: seq<bool>, i: nat)
    requires i < |found| && found[i]
    requires forall j :: 0 <= j < i ==> !found[j]
    ensures Leftmost(found, 0) == Some(i)
  {
  }

  /** Where the parts of `p + "token=" + v` stand. */
  lemma KeyValueLayout(p: string, v: string)
    ensures var s := p + KEY + "=" + v;
            |s| == |p| + |KEY| + 1 + |v| && s[|p|..|p| + |KEY|] == KEY
            && s[|p| + |KEY|] == '=' && s[|p| + |KEY| + 1..] == v
  {
  }

  /** A body whose key at `i` is followed directly by '=' and a value that
      neither starts with white space nor holds '&' captures that value. */
  lemma CaptureOfKey(s: string, i: nat)
    requires i + |KEY| + 1 < |s| && s[i..i + |KEY|] == KEY && s[i + |KEY|] == '='
    requires !Strings.IsWhitespace(s[i + |KEY| + 1]) && '&' !in s[i + |KEY| + 1..]
    ensures CaptureAt(s, i) == Some((i + |KEY| + 1, |s|))
  {
    var m := i + |KEY| + 1;
    assert KeyAt(s, i) by {
      assert s[i] == KEY[0] && s[i + 1] == KEY[1] && s[i + 2] == KEY[2];
      assert s[i + 3] == KEY[3] && s[i + 4] == KEY[4];
    }
    assert SkipWs(s, i + |KEY|) == i + |KEY|;
    assert SkipWs(s, m) == m;
    assert s[m] == s[m..][0];
    RunEndToEnd(s, m);
  }

  lemma {:induction false} RunEndToEnd(s: string, m: nat)
    requires m <= |s| && '&' !in s[m..]
    ensures RunEnd(s, m) == |s|
    decreases |s| - m
  {
    if m < |s| {
      assert s[m] == s[m..][0];
      assert s[m + 1..] == s[m..][1..];
      RunEndToEnd(s, m + 1);
    }
  }

  /** The unanchored key in a typical body: "access_token=x" gives "x". */
  lemma AccessToken()
    ensures ExtractToken("access_" + KEY + "=" + "x") == Some("x")
  {
    var p := "access_";
    var s := p + KEY + "=" + "x";
    forall j: nat | j < |p| ensures !KeyAt(s, j) {
      assert s[j] == p[j];
      assert !FoldsTo(s[j + 0], KEY[0]);
    }
    UnanchoredKey(p, "x");
  }

  // ---------------------------------------------------------------
  // introspection
  // ---------------------------------------------------------------

  /** The Basic credential: a user id (the client id) and an optional
      password (the client secret). */
  datatype Basic = Basic(userId: string, password: Option<string>)

  /** A registered application. */
  datatype App = App(clientId: string, clientSecret: string)

  /** The request body: absent, unreadable, or read and decoded as text. */
  datatype Payload = NoPayload | Unreadable(error: string) | Body(text: string)

  const API_REALM: string := "Basic realm=\"API Access\""
  const JSON: string := "application/json"

  /** `invalid_response`: 401 with the Basic challenge and `invalid_request`. */
  const INVALID: Response := Response(401, [("www-authenticate", API_REALM), ("content-type", JSON)],
                                      "{\"error\":\"invalid_request\"}")

  /** A 200 JSON answer `{"active": ...}`. */
  function Active(active: bool): (r: Response)
    ensures r.status == 200 && r.headers == [("content-type", JSON)]
    ensures r.body == if active then "{\"active\":true}" else "{\"active\":false}"
  {
    Response(200, [("content-type", JSON)], if active then "{\"active\":true}" else "{\"active\":false}")
  }

  /** `db.find({"client_id": id}, APPS)`: the first registered application
      with that client id. */
  function FindApp(apps: seq<App>, id: string): (r: Option<App>)
    ensures r.Some? ==> r.value in apps && r.value.clientId == id
    ensures r.None? <==> forall a :: a in apps ==> a.clientId != id
  {
    if |apps| == 0 then None
    else if apps[0].clientId == id then Some(apps[0])
    else FindApp(apps[1..], id)
  }

  /** `introspection`. A failure to read the body is passed on as an error;
      `valid` stands for `validate_token` under the configured key. */
  function Introspection(basic: Option<Basic>, payload: Payload, apps: seq<App>,
                         valid: string -> bool): (r: Result<Response, string>)
    ensures payload.Unreadable? && basic.Some? ==> r == Err(payload.error)
    ensures basic.None? || payload.NoPayload? ==> r == Ok(INVALID)
    ensures r.Ok? && r.value.status == 200 <==>
              basic.Some? && payload.Body? && FindApp(apps, basic.value.userId).Some?
              && basic.value.password == Some(FindApp(apps, basic.value.userId).value.clientSecret)
              && ExtractToken(payload.text).Some?
    ensures r.Ok? && r.value.status == 200 ==> r.value == Active(valid(ExtractToken(payload.text).value))
    ensures r.Ok? ==> r.value == INVALID || r.value.status == 200
    // only an unreadable body is an error; every other refusal is the 401 answer
    ensures r.Err? <==> basic.Some? && payload.Unreadable?
    ensures basic.Some? && payload.Body? && FindApp(apps, basic.value.userId).None? ==> r == Ok(INVALID)
  {
    match (basic, payload)
    case (None, _) => Ok(INVALID)
    case (Some(_), NoPayload) => Ok(INVALID)
    case (Some(_), Unreadable(e)) => Err(e)
    case (Some(b), Body(text)) =>
      match FindApp(apps, b.userId)
      case None => Ok(INVALID)
      case Some(app) =>
        if b.password == Some(app.clientSecret) then
          match ExtractToken(text)
          case Some(token) => Ok(Active(valid(token)))
          case None => Ok(INVALID)
        else Ok(INVALID)
  }
}
