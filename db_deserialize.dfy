/** The decoder of the group form, a `name=…&subscriptions=…&last_updated_by=…`
    string whose values are percent-encoded (section 2.1 of RFC 3986). */
module DbDeserialize {
  import opened Wrappers
  import opened Strings
  import Utf8

  type byte = Utf8.byte

  /** The decoded form. */
  datatype GroupForm = GroupForm(name: string, subscriptions: seq<string>, lastUpdatedBy: string)

  /** Why a form was refused. */
  datatype FormError =
    | MissingValue
    | InvalidUtf8
    | UnknownField(key: string)
    | MissingField(field: string)

  predicate IsHexDigit(b: byte) {
    (0x30 <= b <= 0x39) || (0x41 <= b <= 0x46) || (0x61 <= b <= 0x66)
  }

  function HexValue(b: byte): (v: int)
    requires IsHexDigit(b)
    ensures 0 <= v < 16
  {
    if b <= 0x39 then b - 0x30 else if b <= 0x46 then b - 0x41 + 10 else b - 0x61 + 10
  }

  /** The upper-case hexadecimal digit of `v`. */
  function HexDigit(v: int): (b: byte)
    requires 0 <= v < 16
    ensures IsHexDigit(b) && HexValue(b) == v
  {
    if v < 10 then 0x30 + v else 0x41 + v - 10
  }

  /** Byte-level percent-decoding: a '%' followed by two hexadecimal digits
      becomes the byte they denote; every other byte, including a '%' not
      followed by two digits, is kept. */
  function PercentDecodeBytes(bs: seq<byte>): (r: seq<byte>)
    ensures |r| <= |bs|
    ensures 0x25 !in bs ==> r == bs
    decreases |bs|
  {
    if |bs| == 0 then []
    else if bs[0] == 0x25 && |bs| >= 3 && IsHexDigit(bs[1]) && IsHexDigit(bs[2]) then
      [HexValue(bs[1]) * 16 + HexValue(bs[2])] + PercentDecodeBytes(bs[3..])
    else
      [bs[0]] + PercentDecodeBytes(bs[1..])
  }

  /** `urlencoding::decode`: decode the bytes of `val`, then read them as
      UTF-8; None when they are not UTF-8. */
  function PercentDecode(val: string): (r: Option<string>)
    ensures r.Some? <==> Utf8.IsUtf8(PercentDecodeBytes(Utf8.Encode(val)))
    ensures r.Some? ==> Utf8.Encode(r.value) == PercentDecodeBytes(Utf8.Encode(val))
  {
    var d := Utf8.Decode(PercentDecodeBytes(Utf8.Encode(val)));
    if d.Some? then
      Utf8.EncodeDecode(PercentDecodeBytes(Utf8.Encode(val)), d.value);
      d
    else d
  }

  /** RFC 3986 unreserved characters, which an encoder leaves as they are. */
  predicate IsUnreserved(b: byte) {
    (0x41 <= b <= 0x5A) || (0x61 <= b <= 0x7A) || (0x30 <= b <= 0x39)
    || b == 0x2D || b == 0x2E || b == 0x5F || b == 0x7E
  }

  /** The percent-encoding a client applies: unreserved bytes are kept, every
      other byte becomes '%' and two upper-case hexadecimal digits. */
  function PercentEncodeBytes(bs: seq<byte>): (r: seq<byte>)
    ensures forall i :: 0 <= i < |r| ==> r[i] < 0x80 && r[i] != 0x26 && r[i] != 0x3D
    decreases |bs|
  {
    if |bs| == 0 then []
    else EncodeByte(bs[0]) + PercentEncodeBytes(bs[1..])
  }

  function EncodeByte(b: byte): (r: seq<byte>)
    ensures forall i :: 0 <= i < |r| ==> r[i] < 0x80 && r[i] != 0x26 && r[i] != 0x3D
  {
    if IsUnreserved(b) then [b] else [0x25, HexDigit(b / 16), HexDigit(b % 16)]
  }

  /** Percent-decoding undoes percent-encoding. */
  lemma {:induction false} DecodeEncodeBytes(bs: seq<byte>)
    ensures PercentDecodeBytes(PercentEncodeBytes(bs)) == bs
    decreases |bs|
  {
    if |bs| > 0 {
      var rest := PercentEncodeBytes(bs[1..]);
      assert PercentEncodeBytes(bs) == EncodeByte(bs[0]) + rest;
      DecodeEncodeBytes(bs[1..]);
      DecodeEncodeByte(bs[0], rest);
      assert [bs[0]] + bs[1..] == bs;
    }
  }

  lemma DecodeEncodeByte(b: byte, rest: seq<byte>)
    ensures PercentDecodeBytes(EncodeByte(b) + rest) == [b] + PercentDecodeBytes(rest)
  {
    var e := EncodeByte(b) + rest;
    if IsUnreserved(b) {
      assert e[0] == b != 0x25;
      assert e[1..] == rest;
    } else {
      assert e[0] == 0x25 && e[1] == HexDigit(b / 16) && e[2] == HexDigit(b % 16);
      assert e[3..] == rest;
      assert HexValue(e[1]) * 16 + HexValue(e[2]) == b;
    }
  }

  /** The percent-encoded text of `s`. */
  function PercentEncode(s: string): (t: string)
    ensures '&' !in t && '=' !in t
  {
    Utf8.AsciiText(PercentEncodeBytes(Utf8.Encode(s)))
  }

  /** Decoding an encoded value gives it back, whatever characters it holds. */
  lemma PercentDecodeEncode(s: string)
    ensures PercentDecode(PercentEncode(s)) == Some(s)
  {
    Utf8.EncodeAsciiText(PercentEncodeBytes(Utf8.Encode(s)));
    DecodeEncodeBytes(Utf8.Encode(s));
    Utf8.DecodeEncode(s);
  }

  /** The three keys of the form. */
  predicate IsField(key: string) {
    key == "name" || key == "subscriptions" || key == "last_updated_by"
  }

  /** One parameter as (key, decoded value), with the checks made in the
      order of the loop body: '=' present, value decodes, key known. */
  function ParseParam(param: string): (r: Result<(string, string), FormError>)
    ensures r == Err(MissingValue) <==> '=' !in param
    ensures r.Err? ==> r.error.MissingValue? || r.error.InvalidUtf8? || r.error.UnknownField?
    ensures r.Ok? ==> IsField(r.value.0)
  {
    SplitCharMany(param, '=');
    var parts := Split(param, "=");
    if |parts| < 2 then Err(MissingValue)
    else
      match PercentDecode(parts[1])
      case None => Err(InvalidUtf8)
      case Some(d) => if IsField(parts[0]) then Ok((parts[0], d)) else Err(UnknownField(parts[0]))
  }

  /** Only the first two '='-separated pieces of a parameter count: text
      after a second '=' is ignored. */
  lemma ParseParamExtraEquals(k: string, v: string, t: string)
    requires '=' !in k && '=' !in v
    ensures ParseParam(k + "=" + v + "=" + t) == ParseParam(k + "=" + v)
  {
    assert k + "=" + v + "=" + t == k + ['='] + (v + ['='] + t);
    assert k + "=" + v == k + ['='] + v;
    SplitCharFirst(k, '=', v + ['='] + t);
    SplitCharFirst(v, '=', t);
    SplitCharFirst(k, '=', v);
    SplitCharAbsent(v, '=');
  }

  /** The parameter a client writes for one entry. */
  function EncodeParam(e: (string, string)): string {
    e.0 + "=" + PercentEncode(e.1)
  }

  /** A known key with an encoded value parses back to the entry. */
  lemma ParseEncodedParam(e: (string, string))
    requires IsField(e.0)
    ensures ParseParam(EncodeParam(e)) == Ok(e)
  {
    assert '=' !in e.0;
    PercentDecodeEncode(e.1);
    assert e.0 + "=" + PercentEncode(e.1) == e.0 + ['='] + PercentEncode(e.1);
    SplitCharFirst(e.0, '=', PercentEncode(e.1));
    SplitCharAbsent(PercentEncode(e.1), '=');
  }

  lemma EncodeParamNoAmpersand(e: (string, string))
    requires IsField(e.0)
    ensures '&' !in EncodeParam(e)
  {
    assert '&' !in e.0 by {
      if e.0 == "name" {
      } else if e.0 == "subscriptions" {
      } else {
        assert e.0 == "last_updated_by";
      }
    }
    assert '&' !in PercentEncode(e.1);
    assert '&' !in "=";
  }

  /** The entries of all parameters, or the error of the first one that fails. */
  function ParseAll(params: seq<string>): (r: Result<seq<(string, string)>, FormError>)
    ensures r.Ok? ==> |r.value| == |params|
    decreases |params|
  {
    if |params| == 0 then Ok([])
    else
      match ParseAll(params[..|params| - 1])
      case Err(e) => Err(e)
      case Ok(es) =>
        match ParseParam(params[|params| - 1])
        case Err(e) => Err(e)
        case Ok(en) => Ok(es + [en])
  }

  /** When every parameter parses, the entries stand one to one for the
      parameters. */
  lemma {:induction false} ParseAllEntries(params: seq<string>)
    requires ParseAll(params).Ok?
    ensures forall i :: 0 <= i < |params| ==> ParseParam(params[i]) == Ok(ParseAll(params).value[i])
    decreases |params|
  {
    if |params| > 0 {
      var n := |params| - 1;
      var es := ParseAll(params[..n]).value;
      var en := ParseParam(params[n]).value;
      assert ParseAll(params) == Ok(es + [en]);
      ParseAllEntries(params[..n]);
      forall i | 0 <= i < |params| ensures ParseParam(params[i]) == Ok((es + [en])[i]) {
        if i < n {
          assert params[i] == params[..n][i];
        }
      }
    }
  }

  /** Parameters that all parse give exactly their entries. */
  lemma {:induction false} ParseAllOk(params: seq<string>, es: seq<(string, string)>)
    requires |params| == |es|
    requires forall i :: 0 <= i < |params| ==> ParseParam(params[i]) == Ok(es[i])
    ensures ParseAll(params) == Ok(es)
    decreases |params|
  {
    if |params| > 0 {
      var n := |params| - 1;
      assert forall i :: 0 <= i < n ==> params[..n][i] == params[i] && es[..n][i] == es[i];
      ParseAllOk(params[..n], es[..n]);
      StepOk(params, n, es[n]);
      FrontLast(es);
    }
  }

  /** One more parameter that parses adds its entry. */
  lemma StepOk(params: seq<string>, i: nat, en: (string, string))
    requires i < |params| && ParseAll(params[..i]).Ok? && ParseParam(params[i]) == Ok(en)
    ensures ParseAll(params[..i + 1]) == Ok(ParseAll(params[..i]).value + [en])
  {
    PrefixSnoc(params, i);
  }

  /** The first parameter that fails decides the form's error. */
  lemma StepErr(value: string, i: nat, e: FormError)
    requires i < |Split(value, "&")| && ParseAll(Split(value, "&")[..i]).Ok?
    requires ParseParam(Split(value, "&")[i]) == Err(e)
    ensures DecodeGroupForm(value) == Err(e)
  {
    var params := Split(value, "&");
    PrefixSnoc(params, i);
    ParseAllPrefixErr(params, i + 1);
  }

  /** The outcome of one parameter, step by step. */
  lemma ParamOutcome(param: string)
    ensures |Split(param, "=")| < 2 ==> ParseParam(param) == Err(MissingValue)
    ensures |Split(param, "=")| >= 2 && PercentDecode(Split(param, "=")[1]).None? ==>
              ParseParam(param) == Err(InvalidUtf8)
    ensures |Split(param, "=")| >= 2 && PercentDecode(Split(param, "=")[1]).Some? ==>
              ParseParam(param) ==
                var key := Split(param, "=")[0];
                if IsField(key) then Ok((key, PercentDecode(Split(param, "=")[1]).value))
                else Err(UnknownField(key))
  {
  }

  /** The field values after one more entry. */
  lemma EntrySnoc(es: seq<(string, string)>, en: (string, string), k: string)
    ensures ValuesOf(es + [en], k) == ValuesOf(es, k) + (if en.0 == k then [en.1] else [])
    ensures LastOf(es + [en], k) == if en.0 == k then Some(en.1) else LastOf(es, k)
  {
    assert (es + [en])[..|es|] == es;
  }

  /** A failing list fails with the error of its first failing parameter. */
  lemma {:induction false} ParseAllErr(params: seq<string>)
    requires ParseAll(params).Err?
    ensures exists i :: && 0 <= i < |params| && ParseParam(params[i]) == Err(ParseAll(params).error)
                        && forall j :: 0 <= j < i ==> ParseParam(params[j]).Ok?
    decreases |params|
  {
    var n := |params| - 1;
    var init := params[..n];
    assert forall j :: 0 <= j < n ==> init[j] == params[j];
    if ParseAll(init).Err? {
      ParseAllErr(init);
    } else {
      ParseAllEntries(init);
      assert ParseParam(params[n]) == Err(ParseAll(params).error);
    }
  }

  /** Once a prefix fails, the whole list fails with the same error. */
  lemma {:induction false} ParseAllPrefixErr(params: seq<string>, n: nat)
    requires n <= |params| && ParseAll(params[..n]).Err?
    ensures ParseAll(params) == ParseAll(params[..n])
    decreases |params| - n
  {
    if n < |params| {
      assert params[..n + 1][..n] == params[..n];
      ParseAllPrefixErr(params, n + 1);
    } else {
      assert params[..n] == params;
    }
  }

  /** The values of all entries with key `k`, in order. */
  function ValuesOf(es: seq<(string, string)>, k: string): seq<string>
    decreases |es|
  {
    if |es| == 0 then []
    else ValuesOf(es[..|es| - 1], k) + (if es[|es| - 1].0 == k then [es[|es| - 1].1] else [])
  }

  /** The value of the last entry with key `k`. */
  function LastOf(es: seq<(string, string)>, k: string): Option<string>
    decreases |es|
  {
    if |es| == 0 then None
    else if es[|es| - 1].0 == k then Some(es[|es| - 1].1)
    else LastOf(es[..|es| - 1], k)
  }

  lemma {:induction false} ValuesOfAppend(a: seq<(string, string)>, b: seq<(string, string)>, k: string)
    ensures ValuesOf(a + b, k) == ValuesOf(a, k) + ValuesOf(b, k)
    decreases |b|
  {
    if |b| == 0 {
      assert a + b == a;
    } else {
      var n := |b| - 1;
      assert (a + b)[..|a + b| - 1] == a + b[..n];
      ValuesOfAppend(a, b[..n], k);
    }
  }

  lemma {:induction false} LastOfAppend(a: seq<(string, string)>, b: seq<(string, string)>, k: string)
    ensures LastOf(a + b, k) == if LastOf(b, k).Some? then LastOf(b, k) else LastOf(a, k)
    decreases |b|
  {
    if |b| == 0 {
      assert a + b == a;
    } else {
      var n := |b| - 1;
      assert (a + b)[..|a + b| - 1] == a + b[..n];
      LastOfAppend(a, b[..n], k);
    }
  }

  /** The form a string denotes: every parameter parses, `subscriptions` are
      all the `subscriptions` values in order, `name` and `last_updated_by`
      are the last of theirs and must be present. */
  function DecodeGroupForm(value: string): (r: Result<GroupForm, FormError>)
    ensures r.Ok? ==> forall p :: p in Split(value, "&") ==> ParseParam(p).Ok?
    ensures r.Err? && !r.error.MissingField? ==>
              exists i :: && 0 <= i < |Split(value, "&")| && ParseParam(Split(value, "&")[i]) == Err(r.error)
                          && forall j :: 0 <= j < i ==> ParseParam(Split(value, "&")[j]).Ok?
    ensures r.Err? && r.error.MissingField? ==>
              && (forall p :: p in Split(value, "&") ==> ParseParam(p).Ok?)
              && (r.error.field == "name" || r.error.field == "last_updated_by")
  {
    match ParseAll(Split(value, "&"))
    case Err(e) => ParseAllErr(Split(value, "&")); Err(e)
    case Ok(es) =>
      ParseAllEntries(Split(value, "&"));
      if LastOf(es, "name").None? then Err(MissingField("name"))
      else if LastOf(es, "last_updated_by").None? then Err(MissingField("last_updated_by"))
      else Ok(GroupForm(LastOf(es, "name").value, ValuesOf(es, "subscriptions"), LastOf(es, "last_updated_by").value))
  }

  /** `GroupFormVisitor::visit_str`: one pass over the parameters that
      updates `name` and `last_updated_by` and appends to `subscriptions`,
      stopping at the first bad parameter. */
  method VisitStr(value: string) returns (r: Result<GroupForm, FormError>)
    ensures r == DecodeGroupForm(value)
  {
    var name: Option<string> := None;
    var subscriptions: seq<string> := [];
    var lastUpdatedBy: Option<string> := None;
    var params := Split(value, "&");
    var i := 0;
    while i < |params|
      invariant 0 <= i <= |params|
      invariant ParseAll(params[..i]).Ok?
      invariant subscriptions == ValuesOf(ParseAll(params[..i]).value, "subscriptions")
      invariant name == LastOf(ParseAll(params[..i]).value, "name")
      invariant lastUpdatedBy == LastOf(ParseAll(params[..i]).value, "last_updated_by")
    {
      var param := params[i];
      ParamOutcome(param);
      SplitCharMany(param, '=');
      var parts := Split(param, "=");
      if |parts| < 2 {
        StepErr(value, i, MissingValue);
        return Err(MissingValue);
      }
      var decoded := PercentDecode(parts[1]);
      if decoded.None? {
        StepErr(value, i, InvalidUtf8);
        return Err(InvalidUtf8);
      }
      var key := parts[0];
      ghost var es := ParseAll(params[..i]).value;
      ghost var en := (key, decoded.value);
      if key == "name" {
        name := Some(decoded.value);
      } else if key == "subscriptions" {
        subscriptions := subscriptions + [decoded.value];
      } else if key == "last_updated_by" {
        lastUpdatedBy := Some(decoded.value);
      } else {
        StepErr(value, i, UnknownField(key));
        return Err(UnknownField(key));
      }
      StepOk(params, i, en);
      EntrySnoc(es, en, "name");
      EntrySnoc(es, en, "subscriptions");
      EntrySnoc(es, en, "last_updated_by");
      i := i + 1;
    }
    assert params[..i] == params;
    if name.None? {
      return Err(MissingField("name"));
    }
    if lastUpdatedBy.None? {
      return Err(MissingField("last_updated_by"));
    }
    return Ok(GroupForm(name.value, subscriptions, lastUpdatedBy.value));
  }

  /** The entries a client sends for a form. */
  function FormEntries(f: GroupForm): seq<(string, string)> {
    [("name", f.name)] + SubscriptionEntries(f.subscriptions) + [("last_updated_by", f.lastUpdatedBy)]
  }

  function SubscriptionEntries(subs: seq<string>): (es: seq<(string, string)>)
    ensures |es| == |subs|
    ensures forall i :: 0 <= i < |subs| ==> es[i] == ("subscriptions", subs[i])
  {
    if |subs| == 0 then [] else [("subscriptions", subs[0])] + SubscriptionEntries(subs[1..])
  }

  function EncodeParams(es: seq<(string, string)>): (params: seq<string>)
    ensures |params| == |es|
    ensures forall i :: 0 <= i < |es| ==> params[i] == EncodeParam(es[i])
  {
    if |es| == 0 then [] else [EncodeParam(es[0])] + EncodeParams(es[1..])
  }

  /** The request body a browser sends for a form. */
  function EncodeGroupForm(f: GroupForm): string {
    Join(EncodeParams(FormEntries(f)), "&")
  }

  lemma {:induction false} SubscriptionValues(subs: seq<string>)
    ensures ValuesOf(SubscriptionEntries(subs), "subscriptions") == subs
    ensures LastOf(SubscriptionEntries(subs), "name") == None
    ensures LastOf(SubscriptionEntries(subs), "last_updated_by") == None
    decreases |subs|
  {
    if |subs| > 0 {
      var n := |subs| - 1;
      var es := SubscriptionEntries(subs);
      assert es[..n] == SubscriptionEntries(subs[..n]);
      SubscriptionValues(subs[..n]);
      assert subs[..n] + [subs[n]] == subs;
    }
  }

  /** A form, whatever its values hold, decodes from its encoding to itself. */
  lemma DecodeEncodeGroupForm(f: GroupForm)
    ensures DecodeGroupForm(EncodeGroupForm(f)) == Ok(f)
  {
    var es := FormEntries(f);
    EncodedEntriesParse(es);
    FormEntriesSelect(f);
  }

  /** The parameters of encoded entries with known keys split apart and
      parse back to the entries. */
  lemma EncodedEntriesParse(es: seq<(string, string)>)
    requires |es| >= 1
    requires forall i :: 0 <= i < |es| ==> IsField(es[i].0)
    ensures ParseAll(Split(Join(EncodeParams(es), "&"), "&")) == Ok(es)
  {
    var params := EncodeParams(es);
    forall i | 0 <= i < |params| ensures '&' !in params[i] && ParseParam(params[i]) == Ok(es[i]) {
      ParseEncodedParam(es[i]);
      EncodeParamNoAmpersand(es[i]);
    }
    SplitJoin(params, '&');
    ParseAllOk(params, es);
  }

  /** Selecting the fields from the entries of a form gives the form. */
  lemma FormEntriesSelect(f: GroupForm)
    ensures ValuesOf(FormEntries(f), "subscriptions") == f.subscriptions
    ensures LastOf(FormEntries(f), "name") == Some(f.name)
    ensures LastOf(FormEntries(f), "last_updated_by") == Some(f.lastUpdatedBy)
  {
    var subs := SubscriptionEntries(f.subscriptions);
    var head: seq<(string, string)> := [("name", f.name)];
    var tail: seq<(string, string)> := [("last_updated_by", f.lastUpdatedBy)];
    assert FormEntries(f) == (head + subs) + tail;
    SubscriptionValues(f.subscriptions);
    ValuesOfAppend(head + subs, tail, "subscriptions");
    ValuesOfAppend(head, subs, "subscriptions");
    assert ValuesOf(head, "subscriptions") == [] by {
      assert head[..0] == [];
    }
    assert ValuesOf(tail, "subscriptions") == [] by {
      assert tail[..0] == [];
    }
    LastOfAppend(head + subs, tail, "name");
    LastOfAppend(head, subs, "name");
    assert LastOf(tail, "name") == None by {
      assert tail[..0] == [];
    }
    LastOfAppend(head + subs, tail, "last_updated_by");
  }

  /** The empty body is one parameter without '=', so it is refused with
      "missing value" rather than with a missing field. */
  lemma EmptyFormMissingValue()
    ensures DecodeGroupForm("") == Err(MissingValue)
  {
    assert Split("", "=") == [""];
    assert Split("", "&") == [""];
    assert [""][..0] == [];
  }
}
