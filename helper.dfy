/** Helpers of the web layer: the logging pass-through, the comma-flattening
    of form values, the parts of the HTTP forwarder that decide something
    (method mapping, header filtering, status), and the notebook tear-down. */
module Helper {
  import opened Wrappers
  import opened Strings
  import opened Maps
  import opened Http
  import opened Errors
  import opened Models
  import Store

  // ---------------------------------------------------------------- logging

  datatype Level = Error | Warn | Info | Debug

  /** The prefix each level writes before the error. */
  function LevelPrefix(level: Level): string {
    match level
    case Error => "Error: "
    case Warn => "Warning: "
    case Info => "Info: "
    case Debug => "Debug: "
  }

  /** `log_with_level!`: the value is passed through unchanged; an error is
      also written to the log at the given level. */
  function LogWithLevel<T, E>(res: Result<T, E>, level: Level, display: E -> string): (out: (Result<T, E>, Option<string>))
    ensures out.0 == res
    ensures out.1.Some? <==> res.Err?
    ensures res.Err? ==> out.1.value == LevelPrefix(level) + display(res.error)
  {
    match res
    case Ok(_) => (res, None)
    case Err(e) => (res, Some(LevelPrefix(level) + display(e)))
  }

  // ------------------------------------------------------ delimited strings

  /** `str::split` with any pattern. An empty pattern matches at every
      character boundary, giving "", each character, and "". */
  function SplitStr(s: string, d: string): (r: seq<string>)
    ensures |r| >= 1
  {
    if |d| > 0 then Split(s, d) else [""] + Chars(s) + [""]
  }

  function Chars(s: string): (r: seq<string>)
    ensures |r| == |s| && forall i :: 0 <= i < |s| ==> r[i] == [s[i]]
  {
    seq(|s|, i requires 0 <= i < |s| => [s[i]])
  }

  /** Joining the pieces of `SplitStr` with the pattern gives the input back. */
  lemma JoinSplitStr(s: string, d: string)
    ensures Join(SplitStr(s, d), d) == s
  {
    if |d| > 0 {
      JoinSplit(s, d);
    } else {
      JoinChars(s);
    }
  }

  lemma JoinChars(s: string)
    ensures Join([""] + Chars(s) + [""], "") == s
  {
    JoinCharsTail(s);
    var xs := Chars(s) + [""];
    assert [""] + Chars(s) + [""] == [""] + xs;
    assert ([""] + xs)[1..] == xs;
  }

  lemma {:induction false} JoinCharsTail(s: string)
    ensures Join(Chars(s) + [""], "") == s
    decreases |s|
  {
    if |s| > 0 {
      var t := s[1..];
      JoinCharsTail(t);
      var xs := Chars(s) + [""];
      assert xs == [[s[0]]] + (Chars(t) + [""]);
      assert xs[1..] == Chars(t) + [""];
      assert [s[0]] + t == s;
    } else {
      assert Chars(s) + [""] == [""];
    }
  }

  /** The pieces of every input, in input order. */
  function SplitEach(s: seq<string>, d: string): (r: seq<seq<string>>)
    ensures |r| == |s| && forall i :: 0 <= i < |s| ==> r[i] == SplitStr(s[i], d)
  {
    seq(|s|, i requires 0 <= i < |s| => SplitStr(s[i], d))
  }

  /** `delimited_string_to_vec`: pushes the pieces of each input, in order,
      onto one accumulator. */
  method DelimitedStringToVec(s: seq<string>, delimiter: string) returns (acc: seq<string>)
    ensures acc == Flatten(SplitEach(s, delimiter))
  {
    acc := [];
    var i := 0;
    while i < |s|
      invariant 0 <= i <= |s|
      invariant acc == Flatten(SplitEach(s[..i], delimiter))
    {
      ghost var before := acc;
      var pieces := SplitStr(s[i], delimiter);
      var j := 0;
      while j < |pieces|
        invariant 0 <= j <= |pieces|
        invariant acc == before + pieces[..j]
      {
        acc := acc + [pieces[j]];
        assert pieces[..j + 1] == pieces[..j] + [pieces[j]];
        j := j + 1;
      }
      assert pieces[..j] == pieces;
      FlattenSnoc(s, i, delimiter);
      i := i + 1;
    }
    assert s[..i] == s;
  }

  /** One input more adds its pieces at the end. */
  lemma FlattenSnoc(s: seq<string>, i: nat, d: string)
    requires i < |s|
    ensures Flatten(SplitEach(s[..i + 1], d)) == Flatten(SplitEach(s[..i], d)) + SplitStr(s[i], d)
  {
    var pieces := SplitStr(s[i], d);
    assert SplitEach(s[..i + 1], d) == SplitEach(s[..i], d) + [pieces];
    FlattenAppend(SplitEach(s[..i], d), [pieces]);
    assert [pieces][1..] == [];
  }

  /** Each flattened piece comes from one input and holds no delimiter; the
      pieces of each input joined with the delimiter give that input. */
  lemma DelimitedPieces(s: seq<string>, d: string)
    requires |d| > 0
    ensures forall p :: p in Flatten(SplitEach(s, d)) ==> !Contains(p, d)
    ensures forall i :: 0 <= i < |s| ==> Join(SplitEach(s, d)[i], d) == s[i]
  {
    forall p | p in Flatten(SplitEach(s, d)) ensures !Contains(p, d) {
      var k := FlattenMember(SplitEach(s, d), p);
      SplitPiecesFree(s[k], d);
      var m :| 0 <= m < |SplitStr(s[k], d)| && SplitStr(s[k], d)[m] == p;
    }
    forall i | 0 <= i < |s| ensures Join(SplitEach(s, d)[i], d) == s[i] {
      JoinSplitStr(s[i], d);
    }
  }

  /** The part a flattened element comes from. */
  lemma {:induction false} FlattenMember<T>(xs: seq<seq<T>>, x: T) returns (k: nat)
    requires x in Flatten(xs)
    ensures k < |xs| && x in xs[k]
    decreases |xs|
  {
    assert Flatten(xs) == xs[0] + Flatten(xs[1..]);
    if x in xs[0] {
      k := 0;
    } else {
      var k' := FlattenMember(xs[1..], x);
      k := k' + 1;
    }
  }

  /** The case of the unit test `test_delimited_string_to_vec`. */
  lemma DelimitedExample()
    ensures Flatten(SplitEach(["a,b,c", "d,e,f"], ",")) == ["a", "b", "c", "d", "e", "f"]
  {
    var s := ["a,b,c", "d,e,f"];
    var e := SplitEach(s, ",");
    assert s[0] == ['a', ',', 'b', ',', 'c'];
    assert s[1] == ['d', ',', 'e', ',', 'f'];
    SplitThree('a', 'b', 'c');
    SplitThree('d', 'e', 'f');
    FlattenTwo(e);
  }

  lemma FlattenTwo<T>(e: seq<seq<T>>)
    requires |e| == 2
    ensures Flatten(e) == e[0] + e[1]
  {
    var t := e[1..];
    assert t[0] == e[1] && t[1..] == [];
    assert Flatten(t) == e[1] + Flatten(t[1..]);
  }

  /** Three characters that are not commas, comma-separated, split into three. */
  lemma SplitThree(x: char, y: char, z: char)
    requires x != ',' && y != ',' && z != ','
    ensures Split([x, ',', y, ',', z], ",") == [[x], [y], [z]]
  {
    SplitCharAbsent([z], ',');
    SplitCharFirst([y], ',', [z]);
    assert [y, ',', z] == [y] + [','] + [z];
    SplitCharFirst([x], ',', [y, ',', z]);
    assert [x, ',', y, ',', z] == [x] + [','] + [y, ',', z];
  }

  // ----------------------------------------------------------- HTTP method

  /** The methods the forwarder can send. */
  datatype Method = OPTIONS | GET | POST | PUT | DELETE | HEAD | TRACE | CONNECT | PATCH

  function MethodName(m: Method): string {
    match m
    case OPTIONS => "OPTIONS"
    case GET => "GET"
    case POST => "POST"
    case PUT => "PUT"
    case DELETE => "DELETE"
    case HEAD => "HEAD"
    case TRACE => "TRACE"
    case CONNECT => "CONNECT"
    case PATCH => "PATCH"
  }

  const UNSUPPORTED_METHOD: string := "Unsupported HTTP method"

  /** Translating the incoming method by its name: exactly the nine names
      are accepted, any other is an error. */
  function MapMethod(name: string): (r: Result<Method, GuardianError>)
    ensures r.Ok? ==> MethodName(r.value) == name
    ensures r.Err? <==> forall m: Method :: MethodName(m) != name
    ensures r.Err? ==> r.error == GeneralError(UNSUPPORTED_METHOD)
  {
    match name
    case "OPTIONS" => Ok(OPTIONS)
    case "GET" => Ok(GET)
    case "POST" => Ok(POST)
    case "PUT" => Ok(PUT)
    case "DELETE" => Ok(DELETE)
    case "HEAD" => Ok(HEAD)
    case "TRACE" => Ok(TRACE)
    case "CONNECT" => Ok(CONNECT)
    case "PATCH" => Ok(PATCH)
    case _ => Err(GeneralError(UNSUPPORTED_METHOD))
  }

  /** Every method the forwarder sends is reached from its own name. */
  lemma MapMethodName(m: Method)
    ensures MapMethod(MethodName(m)) == Ok(m)
  {
  }

  // --------------------------------------------------------------- headers

  const X_FORWARDED_FOR: string := "x-forwarded-for"

  /** The two header filters of the forwarder. */
  datatype Direction = Upstream | Downstream

  /** Request headers passed on to the upstream service, and response
      headers passed back to the client. */
  predicate Keeps(dir: Direction, name: string) {
    match dir
    case Upstream => name != "authorization" && name != "inference-service"
    case Downstream => name != "connection" && name != "keep-alive" && name != "content-length"
  }

  /** The headers the filter keeps, in order. */
  function Kept(hs: Headers, dir: Direction): (r: Headers)
    ensures forall i :: 0 <= i < |r| ==> Keeps(dir, r[i].0)
    decreases |hs|
  {
    if |hs| == 0 then []
    else Kept(hs[..|hs| - 1], dir) + (if Keeps(dir, hs[|hs| - 1].0) then [hs[|hs| - 1]] else [])
  }

  /** Copying headers one at a time into a map where an insert replaces the
      earlier value; None when a kept value is not visible ASCII, where
      `forward`'s `to_str().unwrap()` panics. */
  method InsertHeaders(init: map<string, HeaderValue>, hs: Headers, dir: Direction)
    returns (r: Option<map<string, HeaderValue>>)
    ensures r.Some? <==> forall i :: 0 <= i < |hs| && Keeps(dir, hs[i].0) ==> AllVisibleAscii(hs[i].1)
    ensures r.Some? ==> r.value == init + CollectMap(Kept(hs, dir))
  {
    var headers := init;
    var i := 0;
    while i < |hs|
      invariant 0 <= i <= |hs|
      invariant headers == init + CollectMap(Kept(hs[..i], dir))
      invariant forall k :: 0 <= k < i && Keeps(dir, hs[k].0) ==> AllVisibleAscii(hs[k].1)
    {
      var name := hs[i].0;
      var value := hs[i].1;
      InsertStep(init, hs, i, dir);
      if Keeps(dir, name) {
        var text := ToStr(value);
        if text.None? {
          return None;
        }
        headers := headers[name := FromText(text.value)];
      }
      i := i + 1;
    }
    assert hs[..i] == hs;
    return Some(headers);
  }

  /** One more header: a kept one is inserted, replacing an earlier value. */
  lemma InsertStep(init: map<string, HeaderValue>, hs: Headers, i: nat, dir: Direction)
    requires i < |hs|
    ensures var before := init + CollectMap(Kept(hs[..i], dir));
      init + CollectMap(Kept(hs[..i + 1], dir)) == if Keeps(dir, hs[i].0) then before[hs[i].0 := hs[i].1] else before
  {
    KeptSnoc(hs, i, dir);
    var kept := Kept(hs[..i], dir);
    if Keeps(dir, hs[i].0) {
      assert Kept(hs[..i + 1], dir) == kept + [hs[i]];
      CollectSnoc(kept, hs[i]);
    } else {
      assert Kept(hs[..i + 1], dir) == kept;
    }
  }

  lemma KeptSnoc(hs: Headers, i: nat, dir: Direction)
    requires i < |hs|
    ensures Kept(hs[..i + 1], dir) == Kept(hs[..i], dir) + (if Keeps(dir, hs[i].0) then [hs[i]] else [])
  {
    assert hs[..i + 1][..i] == hs[..i];
  }

  lemma CollectSnoc(ps: Headers, p: (string, HeaderValue))
    ensures CollectMap(ps + [p]) == CollectMap(ps)[p.0 := p.1]
  {
    assert (ps + [p])[..|ps|] == ps;
  }

  /** The header the peer address contributes. */
  function PeerHeader(peerIp: Option<string>): map<string, HeaderValue> {
    if peerIp.Some? then map[X_FORWARDED_FOR := FromText(peerIp.value)] else map[]
  }

  /** The headers sent upstream: `x-forwarded-for` from the peer, then every
      client header except `authorization` and `inference-service`, the last
      value per name winning, so a client `x-forwarded-for` replaces the
      peer's. */
  method ForwardRequestHeaders(peerIp: Option<string>, hs: Headers) returns (r: Option<map<string, HeaderValue>>)
    ensures r.Some? <==> forall i :: 0 <= i < |hs| && Keeps(Upstream, hs[i].0) ==> AllVisibleAscii(hs[i].1)
    ensures r.Some? ==> r.value == PeerHeader(peerIp) + CollectMap(Kept(hs, Upstream))
    ensures r.Some? ==> "authorization" !in r.value && "inference-service" !in r.value
  {
    r := InsertHeaders(PeerHeader(peerIp), hs, Upstream);
    if r.Some? {
      var ks := Kept(hs, Upstream);
      assert !HasKey(ks, "authorization") && !HasKey(ks, "inference-service");
    }
  }

  /** Which value reaches the upstream service under a forwarded name: the
      client's last one, else, for `x-forwarded-for`, the peer's. */
  lemma ForwardedValue(peerIp: Option<string>, hs: Headers, name: string, v: HeaderValue)
    requires Keeps(Upstream, name)
    ensures LastValue(hs, name, v) ==>
      var m := PeerHeader(peerIp) + CollectMap(Kept(hs, Upstream));
      name in m && m[name] == v
    ensures !HasKey(hs, name) && peerIp.Some? && name == X_FORWARDED_FOR ==>
      var m := PeerHeader(peerIp) + CollectMap(Kept(hs, Upstream));
      name in m && m[name] == FromText(peerIp.value)
  {
    if LastValue(hs, name, v) {
      KeptLast(hs, Upstream, name, v);
    }
    if !HasKey(hs, name) {
      KeptNames(hs, Upstream, name);
    }
  }

  /** Filtering brings in no new name. */
  lemma {:induction false} KeptNames(hs: Headers, dir: Direction, name: string)
    requires !HasKey(hs, name)
    ensures !HasKey(Kept(hs, dir), name)
    decreases |hs|
  {
    if |hs| > 0 {
      var n := |hs| - 1;
      KeptNames(hs[..n], dir, name);
      KeptSnoc(hs, n, dir);
      assert hs[..n + 1] == hs;
      assert hs[n].0 != name;
    }
  }

  /** Filtering then collecting keeps the last value of a kept name. */
  lemma {:induction false} KeptLast(hs: Headers, dir: Direction, name: string, v: HeaderValue)
    requires Keeps(dir, name) && LastValue(hs, name, v)
    ensures name in CollectMap(Kept(hs, dir)) && CollectMap(Kept(hs, dir))[name] == v
    decreases |hs|
  {
    var n := |hs| - 1;
    var init := hs[..n];
    var last := hs[n];
    var i :| 0 <= i < |hs| && hs[i] == (name, v) && forall j :: i < j < |hs| ==> hs[j].0 != name;
    KeptSnoc(hs, n, dir);
    assert hs[..n + 1] == hs;
    var ki := Kept(init, dir);
    if last.0 == name {
      assert i == n;
      assert Kept(hs, dir) == ki + [last];
      CollectSnoc(ki, last);
    } else {
      assert LastValue(init, name, v) by {
        assert init[i] == (name, v);
        assert forall j :: i < j < n ==> init[j].0 != name;
      }
      KeptLast(init, dir, name, v);
      if Keeps(dir, last.0) {
        assert Kept(hs, dir) == ki + [last];
        CollectSnoc(ki, last);
      } else {
        assert Kept(hs, dir) == ki;
      }
    }
  }

  /** `StatusCode::from_u16`: codes 100 to 999 are kept, others refused. */
  function ResponseStatus(code: int): (r: Result<int, GuardianError>)
    ensures r.Ok? <==> 100 <= code <= 999
    ensures r.Ok? ==> r.value == code
  {
    if 100 <= code <= 999 then Ok(code) else Err(GeneralError("invalid status code"))
  }

  /** The headers copied onto the client response: all upstream headers but
      `connection`, `keep-alive` and `content-length`, the last value per
      name winning. */
  method ForwardResponseHeaders(hs: Headers) returns (r: Option<map<string, HeaderValue>>)
    ensures r.Some? <==> forall i :: 0 <= i < |hs| && Keeps(Downstream, hs[i].0) ==> AllVisibleAscii(hs[i].1)
    ensures r.Some? ==> r.value == CollectMap(Kept(hs, Downstream))
    ensures r.Some? ==> "connection" !in r.value && "keep-alive" !in r.value && "content-length" !in r.value
  {
    r := InsertHeaders(map[], hs, Downstream);
    if r.Some? {
      var ks := Kept(hs, Downstream);
      assert map[] + CollectMap(ks) == CollectMap(ks);
      assert !HasKey(ks, "connection") && !HasKey(ks, "keep-alive") && !HasKey(ks, "content-length");
    }
  }

  // ------------------------------------------------------ notebook destroy

  /** The cluster calls the tear-down makes for a subject. */
  datatype KubeCall = DeleteNotebook(subject: string) | DeletePvc(subject: string)

  datatype Destroyed = Destroyed(result: Result<(), string>, calls: seq<KubeCall>, users: seq<UserDoc>)

  /** The user record after the tear-down. */
  function Cleared(u: UserDoc, who: string, now: int): UserDoc {
    u.(notebook := None, lastUpdatedBy := who, updatedAt := now)
  }

  /** `notebook_destroy`: delete the notebook, then its volume unless it is
      kept, then clear the user's `notebook` and record who did it. The
      outcome of each cluster call is an input, and so is `updateError`, the
      database's answer to the update (a failed time conversion included);
      a failure stops there. */
  function NotebookDestroy(users: seq<UserDoc>, subject: string, persistPvc: bool, who: string, now: int,
                           notebookDelete: Result<(), string>, pvcDelete: Result<(), string>,
                           updateError: Option<string>): (d: Destroyed)
    ensures |d.calls| >= 1 && d.calls[0] == DeleteNotebook(subject)
    ensures DeletePvc(subject) in d.calls <==> !persistPvc && notebookDelete.Ok?
    ensures d.result.Ok? <==> notebookDelete.Ok? && (persistPvc || pvcDelete.Ok?) && updateError.None?
    ensures notebookDelete.Err? ==> d.result == Err(notebookDelete.error)
    ensures notebookDelete.Ok? && !persistPvc && pvcDelete.Err? ==> d.result == Err(pvcDelete.error)
    ensures notebookDelete.Ok? && (persistPvc || pvcDelete.Ok?) && updateError.Some? ==>
      d.result == Err(updateError.value)
    ensures d.result.Err? ==> d.users == users
    ensures d.result.Ok? ==> |d.users| == |users|
    ensures d.result.Ok? ==> forall i :: 0 <= i < |users| ==>
      d.users[i] == (if Store.FindById(users, subject) == Some(i) then Cleared(users[i], who, now) else users[i])
  {
    if notebookDelete.Err? then Destroyed(Err(notebookDelete.error), [DeleteNotebook(subject)], users)
    else if !persistPvc && pvcDelete.Err? then
      Destroyed(Err(pvcDelete.error), [DeleteNotebook(subject), DeletePvc(subject)], users)
    else
      var calls := if persistPvc then [DeleteNotebook(subject)] else [DeleteNotebook(subject), DeletePvc(subject)];
      if updateError.Some? then Destroyed(Err(updateError.value), calls, users)
      else
        match Store.FindById(users, subject)
        case None => Destroyed(Ok(()), calls, users)
        case Some(i) => Destroyed(Ok(()), calls, users[i := Cleared(users[i], who, now)])
  }
}
