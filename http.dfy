/** HTTP values as the handlers see them: header values as bytes, header
    lists in iteration order, short-circuit responses, and the outcome of a
    middleware (call the inner service, or answer directly). */
module Http {
  import opened Wrappers
  import Utf8

  type byte = Utf8.byte

  /** The bytes of a header value. */
  type HeaderValue = seq<byte>

  /** Header names are stored lower-case; the list is in iteration order. */
  type Headers = seq<(string, HeaderValue)>

  /** Bytes `HeaderValue::to_str` accepts: visible ASCII and tab. */
  predicate IsVisibleAscii(b: byte) {
    (0x20 <= b < 0x7F) || b == 0x09
  }

  predicate AllVisibleAscii(v: HeaderValue) {
    forall i :: 0 <= i < |v| ==> IsVisibleAscii(v[i])
  }

  /** `HeaderValue::to_str`: the text of a value made of visible ASCII. */
  function ToStr(v: HeaderValue): (r: Option<string>)
    ensures r.Some? <==> AllVisibleAscii(v)
    ensures r.Some? ==> |r.value| == |v| && Utf8.Encode(r.value) == v
  {
    if AllVisibleAscii(v) then
      Utf8.EncodeAsciiText(v);
      Some(Utf8.AsciiText(v))
    else None
  }

  /** A value written from text. */
  function FromText(s: string): HeaderValue {
    Utf8.Encode(s)
  }

  /** Text made of visible ASCII characters reads back unchanged. */
  lemma ToStrFromText(s: string)
    requires forall i :: 0 <= i < |s| ==> (' ' <= s[i] <= '~' || s[i] == '\t')
    ensures ToStr(FromText(s)) == Some(s)
  {
    var bs := AsciiBytes(s);
    AsciiBytesEncode(s);
    assert AllVisibleAscii(bs);
    var t := Utf8.AsciiText(bs);
    assert forall i :: 0 <= i < |s| ==> t[i] == s[i];
    assert t == s;
  }

  function AsciiBytes(s: string): (bs: seq<byte>)
    requires forall i :: 0 <= i < |s| ==> s[i] as int < 0x80
    ensures |bs| == |s| && forall i :: 0 <= i < |s| ==> bs[i] == s[i] as int
  {
    if |s| == 0 then [] else [s[0] as int] + AsciiBytes(s[1..])
  }

  lemma {:induction false} AsciiBytesEncode(s: string)
    requires forall i :: 0 <= i < |s| ==> s[i] as int < 0x80
    ensures Utf8.Encode(s) == AsciiBytes(s)
    decreases |s|
  {
    if |s| > 0 {
      Utf8.EncodeCharAscii(s[0]);
      AsciiBytesEncode(s[1..]);
    }
  }

  /** `HeaderMap::get`: the first value recorded under `name`. */
  function GetHeader(hs: Headers, name: string): (r: Option<HeaderValue>)
    ensures r.Some? <==> exists i :: 0 <= i < |hs| && hs[i].0 == name
    ensures r.Some? ==> exists i :: 0 <= i < |hs| && hs[i] == (name, r.value)
                                    && forall j :: 0 <= j < i ==> hs[j].0 != name
    decreases |hs|
  {
    if |hs| == 0 then None
    else if hs[0].0 == name then Some(hs[0].1)
    else
      var r := GetHeader(hs[1..], name);
      assert forall i :: 1 <= i < |hs| ==> hs[i] == hs[1..][i - 1];
      r
  }

  /** A response produced without calling the inner service. */
  datatype Response = Response(status: int, headers: seq<(string, string)>, body: string)

  /** What a middleware does with a request: call the inner service with
      what it attached to the request, or answer itself. */
  datatype Outcome<X> = Forward(attached: X) | Respond(response: Response)

  /** The header that names the inference service a request is for,
      `Inference-Service`, lower-cased. */
  const INFERENCE_HEADER: string := "inference-service"

  /** Name of the header carrying an error message back to an HTMX page. */
  const HTMX_ERROR_RES: string := "HTMX-Error-Response"

  const FORM_URL_ENCODED: string := "application/x-www-form-urlencoded"

  /** A 400 answer whose message travels in the HTMX error header. */
  function BadRequestWith(msg: string): Response {
    Response(400, [(HTMX_ERROR_RES, msg)], "")
  }

  /** A 200 answer with a form-url-encoded body. */
  function OkForm(body: string): Response {
    Response(200, [("content-type", FORM_URL_ENCODED)], body)
  }
}
