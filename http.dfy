/** The parts of an HTTP response the handlers build: a status, a body and a header map.
    A header value is a byte string, written here one char per byte. */
module Http {
  import opened Common

  /** The `http` crate's HeaderMap: a multimap from header name to its values. Names are
      kept in lower case, as HeaderMap normalises every name it is given. */
  type HeaderMap = map<string, seq<string>>

  const OK: nat := 200
  const NO_CONTENT: nat := 204
  const BAD_REQUEST: nat := 400
  const UNAUTHORIZED: nat := 401
  const NOT_FOUND: nat := 404
  const INTERNAL_SERVER_ERROR: nat := 500

  const CONTENT_TYPE := "content-type"

  datatype Body<T> = NoBody | Json(value: T) | Text(text: string)

  datatype Response<T> = Response(status: nat, body: Body<T>, headers: HeaderMap)

  /** `StatusCode::X.into_response()`: no body and no headers. */
  function StatusOnly<T>(status: nat): Response<T> {
    Response(status, NoBody, map[])
  }

  /** `Json(v).into_response()` with a status: the JSON body and its content type. */
  function JsonReply<T>(status: nat, v: T): Response<T> {
    Response(status, Json(v), map[CONTENT_TYPE := ["application/json"]])
  }

  /** `(status, String).into_response()`: a plain-text body and its content type. */
  function TextReply<T>(status: nat, text: string): Response<T> {
    Response(status, Text(text), map[CONTENT_TYPE := ["text/plain; charset=utf-8"]])
  }

  /** `HeaderMap::insert`: every earlier value of `name` is replaced by the one value. */
  function Insert(h: HeaderMap, name: string, value: string): (r: HeaderMap)
    ensures name in r && r[name] == [value]
    ensures r.Keys == h.Keys + {name}
    ensures forall k :: k in h && k != name ==> r[k] == h[k]
  {
    h[name := [value]]
  }

  /** `HeaderMap::get`: the first value stored under `name`. */
  function Get(h: HeaderMap, name: string): Option<string> {
    if name in h && |h[name]| > 0 then Some(h[name][0]) else None
  }

  /** A byte `HeaderValue::from_str` accepts: anything but a control byte (tab excepted).
      Every byte of a char beyond ASCII is at least 0x80, so such a char is accepted. */
  predicate FieldChar(c: char) {
    c == '\t' || (' ' <= c && c != '\U{7F}')
  }

  /** A byte `HeaderValue::to_str` accepts: tab or visible ASCII. */
  predicate VisibleAscii(c: char) {
    c == '\t' || (' ' <= c <= '~')
  }

  /** `HeaderValue::from_str` */
  function HeaderValueFromStr(s: string): Option<string> {
    if forall i :: 0 <= i < |s| ==> FieldChar(s[i]) then Some(s) else None
  }

  /** `HeaderValue::to_str` */
  function ToStr(v: string): Option<string> {
    if forall i :: 0 <= i < |v| ==> VisibleAscii(v[i]) then Some(v) else None
  }
}
