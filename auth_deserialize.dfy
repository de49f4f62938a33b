/** The hand-written query-string decoders of the login routes: a
    `key=value&…` string becomes a `TokenRequest` or a `CallBackResponse`.
    Values are taken verbatim (no percent-decoding). */
module AuthDeserialize {
  import opened Wrappers
  import opened Strings
  import opened Maps

  datatype TokenRequest = TokenRequest(username: string, admin: string, gui: Option<bool>)

  datatype CallBackResponse = CallBackResponse(code: string, state: string)

  /** Why a query string was refused. */
  datatype DecodeError = MissingField(field: string) | InvalidBool

  /** The message the serde error carries. */
  function Message(e: DecodeError): string {
    match e
    case MissingField(f) => "Missing " + f
    case InvalidBool => "provided string was not `true` or `false`"
  }

  predicate IsQuote(c: char) {
    c == '"'
  }

  /** One '&'-separated piece as a pair: its first '='-part with white space
      trimmed and its second '='-part with '"' trimmed; None when the piece
      holds no '='. */
  function PieceToPair(piece: string): (r: Option<(string, string)>)
    ensures r.Some? <==> '=' in piece
  {
    SplitCharMany(piece, '=');
    var parts := Split(piece, "=");
    if |parts| >= 2 then Some((Trim(parts[0], IsWhitespace), Trim(parts[1], IsQuote))) else None
  }

  /** A piece `k=v` followed by nothing or by further '='-parts yields
      (trimmed k, trimmed v): only the first two parts count. */
  lemma PieceToPairOf(k: string, v: string, rest: string)
    requires '=' !in k && '=' !in v
    requires rest == [] || rest[0] == '='
    ensures PieceToPair(k + "=" + v + rest) == Some((Trim(k, IsWhitespace), Trim(v, IsQuote)))
  {
    assert k + "=" + v + rest == k + ['='] + (v + rest);
    SplitCharFirst(k, '=', v + rest);
    if rest == [] {
      assert v + rest == v;
      SplitCharAbsent(v, '=');
    } else {
      assert v + rest == v + ['='] + rest[1..];
      SplitCharFirst(v, '=', rest[1..]);
    }
  }

  /** The `filter_map` over the pieces. */
  function Pairs(pieces: seq<string>): (ps: seq<(string, string)>)
    ensures |ps| <= |pieces|
    decreases |pieces|
  {
    if |pieces| == 0 then []
    else
      match PieceToPair(pieces[0])
      case Some(p) => [p] + Pairs(pieces[1..])
      case None => Pairs(pieces[1..])
  }

  /** The pairs of a query string, in order. */
  function QueryPairs(v: string): seq<(string, string)> {
    Pairs(Split(v, "&"))
  }

  /** `bool::from_str`. */
  function ParseBool(s: string): (r: Option<bool>)
    ensures r == Some(true) <==> s == "true"
    ensures r == Some(false) <==> s == "false"
    ensures r.None? <==> s != "true" && s != "false"
  {
    if s == "true" then Some(true) else if s == "false" then Some(false) else None
  }

  /** `TokenRequestVisitor::visit_str`. */
  function DecodeTokenRequest(v: string): (r: Result<TokenRequest, DecodeError>)
    ensures var ps := QueryPairs(v);
      && (!HasKey(ps, "username") ==> r == Err(MissingField("username")))
      && (HasKey(ps, "username") && !HasKey(ps, "admin") ==> r == Err(MissingField("admin")))
      && (r.Ok? <==> HasKey(ps, "username") && HasKey(ps, "admin")
                     && forall g :: LastValue(ps, "gui", g) ==> ParseBool(g).Some?)
      && (r.Err? && HasKey(ps, "username") && HasKey(ps, "admin") ==> r == Err(InvalidBool))
      && (r.Ok? ==> LastValue(ps, "username", r.value.username) && LastValue(ps, "admin", r.value.admin))
      && (r.Ok? ==> (r.value.gui.Some? <==> HasKey(ps, "gui")))
      && (r.Ok? && r.value.gui.Some? ==> LastValue(ps, "gui", if r.value.gui.value then "true" else "false"))
  {
    var ps := QueryPairs(v);
    var m := CollectMap(ps);
    if "username" !in m then Err(MissingField("username"))
    else if "admin" !in m then Err(MissingField("admin"))
    else if "gui" in m && ParseBool(m["gui"]).None? then
      Err(InvalidBool)
    else
      assert forall g :: LastValue(ps, "gui", g) ==> ParseBool(g).Some? by {
        forall g | LastValue(ps, "gui", g) ensures ParseBool(g).Some? {
          LastValueUnique(ps, "gui", g, m["gui"]);
        }
      }
      Ok(TokenRequest(m["username"], m["admin"], if "gui" in m then ParseBool(m["gui"]) else None))
  }

  /** `CallBackVisitor::visit_str`: succeeds exactly when both `code` and
      `state` are present, with their last values unchanged. */
  function DecodeCallBack(v: string): (r: Result<CallBackResponse, DecodeError>)
    ensures var ps := QueryPairs(v);
      && (r.Ok? <==> HasKey(ps, "code") && HasKey(ps, "state"))
      && (!HasKey(ps, "code") ==> r == Err(MissingField("code")))
      && (HasKey(ps, "code") && !HasKey(ps, "state") ==> r == Err(MissingField("state")))
      && (r.Ok? ==> LastValue(ps, "code", r.value.code) && LastValue(ps, "state", r.value.state))
  {
    var m := CollectMap(QueryPairs(v));
    if "code" !in m then Err(MissingField("code"))
    else if "state" !in m then Err(MissingField("state"))
    else Ok(CallBackResponse(m["code"], m["state"]))
  }

  /** A pair that survives encoding as `k=v`: neither part holds '&' or '=',
      the key has no white space at its ends and the value no '"'. */
  predicate CleanPair(p: (string, string)) {
    '&' !in p.0 && '=' !in p.0 && '&' !in p.1 && '=' !in p.1
    && (|p.0| == 0 || (!IsWhitespace(p.0[0]) && !IsWhitespace(p.0[|p.0| - 1])))
    && (|p.1| == 0 || (p.1[0] != '"' && p.1[|p.1| - 1] != '"'))
  }

  /** The `k=v` text of a pair. */
  function EncodePair(p: (string, string)): string {
    p.0 + "=" + p.1
  }

  function EncodePairs(ps: seq<(string, string)>): (texts: seq<string>)
    ensures |texts| == |ps|
    ensures forall i :: 0 <= i < |ps| ==> texts[i] == EncodePair(ps[i])
  {
    if |ps| == 0 then [] else [EncodePair(ps[0])] + EncodePairs(ps[1..])
  }

  /** The `k=v&…` query string of a non-empty list of pairs. */
  function EncodeQuery(ps: seq<(string, string)>): string {
    Join(EncodePairs(ps), "&")
  }

  lemma {:induction false} PairsOfEncoded(ps: seq<(string, string)>)
    requires forall i :: 0 <= i < |ps| ==> CleanPair(ps[i])
    ensures Pairs(EncodePairs(ps)) == ps
    decreases |ps|
  {
    if |ps| > 0 {
      var texts := EncodePairs(ps);
      assert texts[0] == ps[0].0 + "=" + ps[0].1 + [];
      PieceToPairOf(ps[0].0, ps[0].1, []);
      TrimUntouched(ps[0].0, IsWhitespace);
      TrimUntouched(ps[0].1, IsQuote);
      assert texts[1..] == EncodePairs(ps[1..]);
      PairsOfEncoded(ps[1..]);
      assert [ps[0]] + ps[1..] == ps;
    }
  }

  /** Decoding the pairs of an encoded query gives the pairs back. */
  lemma QueryPairsOfEncoded(ps: seq<(string, string)>)
    requires |ps| >= 1
    requires forall i :: 0 <= i < |ps| ==> CleanPair(ps[i])
    ensures QueryPairs(EncodeQuery(ps)) == ps
  {
    var texts := EncodePairs(ps);
    forall k | 0 <= k < |texts| ensures '&' !in texts[k] {
      assert texts[k] == ps[k].0 + "=" + ps[k].1;
    }
    SplitJoin(texts, '&');
    PairsOfEncoded(ps);
  }

  /** The text `bool` displays as. */
  function BoolText(b: bool): string {
    if b then "true" else "false"
  }

  /** A query whose last `username`, `admin` and `gui` values are known
      decodes to exactly those values. */
  lemma DecodeTokenRequestOf(v: string, u: string, a: string, g: Option<bool>)
    requires LastValue(QueryPairs(v), "username", u) && LastValue(QueryPairs(v), "admin", a)
    requires g.None? ==> !HasKey(QueryPairs(v), "gui")
    requires g.Some? ==> LastValue(QueryPairs(v), "gui", BoolText(g.value))
    ensures DecodeTokenRequest(v) == Ok(TokenRequest(u, a, g))
  {
    var ps := QueryPairs(v);
    var r := DecodeTokenRequest(v);
    if g.Some? {
      forall h | LastValue(ps, "gui", h) ensures ParseBool(h).Some? {
        LastValueUnique(ps, "gui", BoolText(g.value), h);
      }
    }
    assert r.Ok?;
    LastValueUnique(ps, "username", u, r.value.username);
    LastValueUnique(ps, "admin", a, r.value.admin);
    if g.Some? {
      LastValueUnique(ps, "gui", BoolText(g.value), BoolText(r.value.gui.value));
    }
  }

  /** The query string a client sends for a token request. */
  function EncodeTokenRequest(t: TokenRequest): string {
    EncodeQuery(TokenRequestPairs(t))
  }

  function TokenRequestPairs(t: TokenRequest): seq<(string, string)> {
    var base := [("username", t.username), ("admin", t.admin)];
    match t.gui
    case None => base
    case Some(b) => base + [("gui", BoolText(b))]
  }

  /** A token request whose fields are clean decodes from its query string to
      itself. */
  lemma DecodeEncodeTokenRequest(t: TokenRequest)
    requires CleanPair(("username", t.username)) && CleanPair(("admin", t.admin))
    ensures DecodeTokenRequest(EncodeTokenRequest(t)) == Ok(t)
  {
    var ps := TokenRequestPairs(t);
    if t.gui.Some? {
      assert CleanPair(ps[2]) by {
        assert ps[2] == ("gui", BoolText(t.gui.value));
      }
    }
    QueryPairsOfEncoded(ps);
    TokenRequestPairsSelect(t);
    DecodeTokenRequestOf(EncodeTokenRequest(t), t.username, t.admin, t.gui);
  }

  /** The last value of each field among a request's pairs is that field. */
  lemma TokenRequestPairsSelect(t: TokenRequest)
    ensures LastValue(TokenRequestPairs(t), "username", t.username)
    ensures LastValue(TokenRequestPairs(t), "admin", t.admin)
    ensures t.gui.None? ==> !HasKey(TokenRequestPairs(t), "gui")
    ensures t.gui.Some? ==> LastValue(TokenRequestPairs(t), "gui", BoolText(t.gui.value))
  {
    var ps := TokenRequestPairs(t);
    assert LastValue(ps, "username", t.username) by { assert ps[0] == ("username", t.username); }
    assert LastValue(ps, "admin", t.admin) by { assert ps[1] == ("admin", t.admin); }
    if t.gui.Some? {
      assert LastValue(ps, "gui", BoolText(t.gui.value)) by { assert ps[2] == ("gui", BoolText(t.gui.value)); }
    } else {
      assert !HasKey(ps, "gui");
    }
  }

  /** The redirect query an authorisation server sends back. */
  function EncodeCallBack(c: CallBackResponse): string {
    EncodeQuery([("code", c.code), ("state", c.state)])
  }

  /** A callback whose values are clean decodes from its query string to
      itself. */
  lemma DecodeEncodeCallBack(c: CallBackResponse)
    requires CleanPair(("code", c.code)) && CleanPair(("state", c.state))
    ensures DecodeCallBack(EncodeCallBack(c)) == Ok(c)
  {
    var ps := [("code", c.code), ("state", c.state)];
    QueryPairsOfEncoded(ps);
    assert LastValue(ps, "code", c.code) by { assert ps[0] == ("code", c.code); }
    assert LastValue(ps, "state", c.state) by { assert ps[1] == ("state", c.state); }
    var r := DecodeCallBack(EncodeCallBack(c));
    assert r.Ok?;
    LastValueUnique(ps, "code", c.code, r.value.code);
    LastValueUnique(ps, "state", c.state, r.value.state);
  }
}
