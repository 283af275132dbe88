/**
 * The static class `Request`: accessors over one HTTP request that PHP has
 * already parsed. What the PHP code reads from `$_SERVER`, `$_GET`, `$_POST`,
 * `getallheaders()` and the decoded body is gathered into one immutable
 * record that every accessor takes as its argument.
 */
module Request {
  import opened Wrappers
  import opened PhpStrings
  import opened PhpArrays

  /** One request as PHP hands it over. */
  datatype RequestContext = RequestContext(
    requestMethod: Option<string>,  // $_SERVER['REQUEST_METHOD'], None when unset
    headers: map<string, string>,   // getallheaders(); names are matched exactly
    query: Entries,                 // $_GET
    form: Entries,                  // $_POST
    decodedBody: Value)             // json_decode(<raw body>, true); Null when it yields null

  const JsonMethods: set<string> := {"POST", "PUT", "PATCH", "DELETE"}
  const ParameterMethods: set<string> := {"GET", "PUT", "PATCH", "DELETE"}
  const FormMethods: set<string> := {"POST", "PUT", "PATCH"}

  /** PHP's `[]`. */
  const EmptyArray: Value := Arr([])

  /** `$_SERVER['REQUEST_METHOD'] ?? 'GET'`. */
  function Method(req: RequestContext): (m: string)
    ensures req.requestMethod.None? ==> m == "GET"
    ensures req.requestMethod.Some? ==> m == req.requestMethod.value
  {
    req.requestMethod.GetOr("GET")
  }

  /** A `Content-Type` header is present and contains `application/json`, ignoring case. */
  predicate HasJsonContentType(headers: map<string, string>)
    ensures HasJsonContentType(headers) <==>
              "Content-Type" in headers && exists i :: MatchesIgnoringCaseAt(headers["Content-Type"], "application/json", i)
  {
    "Content-Type" in headers && Stripos(headers["Content-Type"], "application/json").Some?
  }

  /** `$key ? $default : []`, the answer of `parameter` and `formData` when the request does not qualify. */
  function DefaultOrEmpty(key: Option<string>, default: Value): (r: Value)
    ensures key.None? || key == Some("") || key == Some("0") ==> r == EmptyArray
    ensures key.Some? && key.value != "" && key.value != "0" ==> r == default
  {
    if IsTruthyOrNull(key) then default else EmptyArray
  }

  // json()

  /**
   * `Request::json()`: the decoded body of a POST, PUT, PATCH or DELETE whose
   * `Content-Type` mentions `application/json`; `[]` otherwise, and `[]` when
   * decoding gives null. The result is never null.
   */
  function Json(req: RequestContext): (r: Value)
    ensures !r.Null?
    ensures r == EmptyArray || r == req.decodedBody
    ensures !(Method(req) in JsonMethods && HasJsonContentType(req.headers)) ==> r == EmptyArray
    ensures Method(req) in JsonMethods && HasJsonContentType(req.headers) && !req.decodedBody.Null? ==>
              r == req.decodedBody
  {
    var isJson := HasJsonContentType(req.headers);
    if isJson && Method(req) in JsonMethods then
      if req.decodedBody.Null? then EmptyArray else req.decodedBody
    else EmptyArray
  }

  // getBearerToken()

  /** Where `/Bearer\s(\S+)/` can match: `Bearer`, one whitespace byte, then a non-whitespace byte, from `i`. */
  predicate BearerAt(s: string, i: nat) {
    i + 8 <= |s| && s[i..i + 6] == "Bearer" && IsSpace(s[i + 6]) && !IsSpace(s[i + 7])
  }

  /** `k` is the first position where the pattern matches. */
  predicate IsLeftmostBearer(header: string, k: nat) {
    BearerAt(header, k) && forall j :: 0 <= j < k ==> !BearerAt(header, j)
  }

  /** `token` stands in `s` at `start` and ends at the end of `s` or before a whitespace byte. */
  predicate IsRunAt(s: string, start: nat, token: string) {
    start + |token| <= |s| && s[start..start + |token|] == token &&
    (start + |token| == |s| || IsSpace(s[start + |token|]))
  }

  /** The leftmost match position at or after `from`, as the regex engine finds it. */
  function FindBearerFrom(s: string, from: nat): (r: Option<nat>)
    decreases |s| - from
    ensures r.Some? ==> from <= r.value && BearerAt(s, r.value)
    ensures r.Some? ==> forall j :: from <= j < r.value ==> !BearerAt(s, j)
    ensures r.None? ==> forall j :: from <= j ==> !BearerAt(s, j)
  {
    if from + 8 > |s| then None
    else if BearerAt(s, from) then Some(from)
    else FindBearerFrom(s, from + 1)
  }

  /** The longest run of non-whitespace bytes starting at `i`: what the greedy group `(\S+)` captures. */
  function NonSpaceRun(s: string, i: nat): (t: string)
    requires i <= |s|
    decreases |s| - i
    ensures i + |t| <= |s| && t == s[i..i + |t|]
    ensures forall j :: 0 <= j < |t| ==> !IsSpace(t[j])
    ensures i + |t| == |s| || IsSpace(s[i + |t|])
  {
    if i < |s| && !IsSpace(s[i]) then [s[i]] + NonSpaceRun(s, i + 1) else []
  }

  /**
   * `Request::getBearerToken()`: null without an `Authorization` header; the
   * token after the leftmost `Bearer<whitespace>` when the pattern matches;
   * the raw header otherwise.
   */
  function GetBearerToken(req: RequestContext): (r: Option<string>)
    ensures r.None? <==> "Authorization" !in req.headers
    ensures "Authorization" in req.headers && (forall i :: !BearerAt(req.headers["Authorization"], i)) ==>
              r == Some(req.headers["Authorization"])
    ensures "Authorization" in req.headers ==>
              forall k: nat :: IsLeftmostBearer(req.headers["Authorization"], k) ==>
                r == Some(NonSpaceRun(req.headers["Authorization"], k + 7))
  {
    if "Authorization" in req.headers then
      var header := req.headers["Authorization"];
      match FindBearerFrom(header, 0)
      case Some(i) => Some(NonSpaceRun(header, i + 7))
      case None => Some(header)
    else None
  }

  /**
   * When the header contains `Bearer`, a whitespace byte and a non-whitespace
   * byte, the result is a non-empty token free of whitespace that stands in
   * the header right after the leftmost such `Bearer` and runs to the end of
   * the header or to the next whitespace byte.
   */
  lemma BearerTokenIsMaximalRun(req: RequestContext, i: nat)
    requires "Authorization" in req.headers && BearerAt(req.headers["Authorization"], i)
    ensures GetBearerToken(req).Some? && GetBearerToken(req).value != []
    ensures forall j :: 0 <= j < |GetBearerToken(req).value| ==> !IsSpace(GetBearerToken(req).value[j])
    ensures exists k: nat :: k <= i && IsLeftmostBearer(req.headers["Authorization"], k) &&
                             IsRunAt(req.headers["Authorization"], k + 7, GetBearerToken(req).value)
  {
    var header := req.headers["Authorization"];
    var k := FindBearerFrom(header, 0).value;
    var token := NonSpaceRun(header, k + 7);
    assert token == GetBearerToken(req).value;
    assert token[0] == header[k + 7];
    assert IsLeftmostBearer(header, k) && IsRunAt(header, k + 7, token);
  }

  // parameter()

  /** The method or the content type rules the query string out. */
  predicate ParameterRefused(req: RequestContext) {
    Method(req) !in ParameterMethods || HasJsonContentType(req.headers)
  }

  /**
   * `Request::parameter($key, $default)`: for a GET, PUT, PATCH or DELETE
   * whose body is not JSON, the whole query array without a key and
   * `$_GET[$key] ?? $default` with one; otherwise `$key ? $default : []`.
   */
  function Parameter(req: RequestContext, key: Option<string>, default: Value): (r: Value)
    ensures ParameterRefused(req) ==> r == DefaultOrEmpty(key, default)
    ensures !ParameterRefused(req) && key.None? ==> r == Arr(req.query)
    ensures !ParameterRefused(req) && key.Some? ==> r == Coalesce(req.query, ArrayKey(key.value), default)
  {
    if Method(req) !in ParameterMethods then DefaultOrEmpty(key, default)
    else if HasJsonContentType(req.headers) then DefaultOrEmpty(key, default)
    else
      var params := req.query;
      if key.None? then Arr(params)
      else Coalesce(params, ArrayKey(key.value), default)
  }

  // formData()

  /**
   * `array_keys($v) === range(0, count($v) - 1)`. For an empty array the
   * range is `range(0, -1)`, which is `[0, -1]`, so `[]` is not sequential.
   */
  predicate IsSequential(es: Entries) {
    KeysOf(es) == IntKeys(PhpRange(0, |es| - 1))
  }

  /** An array is sequential exactly when it is non-empty and its keys are the integers 0, 1, ..., n-1 in order. */
  lemma SequentialIff(es: Entries)
    ensures IsSequential(es) <==> |es| > 0 && forall i :: 0 <= i < |es| ==> es[i].0 == IntKey(i)
  {
    if |es| > 0 && forall i :: 0 <= i < |es| ==> es[i].0 == IntKey(i) {
      assert KeysOf(es) == IntKeys(PhpRange(0, |es| - 1));
    }
    if IsSequential(es) {
      forall i | 0 <= i < |es| ensures es[i].0 == IntKey(i) {
        assert KeysOf(es)[i] == IntKeys(PhpRange(0, |es| - 1))[i];
      }
    }
  }

  /** What the loop body stores for one value: copied, or normalized when it is a non-sequential array. */
  function NormalizedEntry(v: Value): (r: Value)
    decreases v, 1, 0
    ensures r.Arr? <==> v.Arr?
    ensures !v.Arr? ==> r == v
    ensures r.Arr? ==> DistinctKeys(r.entries)
  {
    match v
    case Arr(es) =>
      if IsSequential(es) then
        SequentialIff(es);
        v
      else Arr(NormalizedPrefix(es, |es|))
    case _ => v
  }

  /** The array `$result` after the loop has visited the first `n` entries. */
  function NormalizedPrefix(es: Entries, n: nat): (r: Entries)
    requires n <= |es|
    decreases Arr(es), 0, n
    ensures |r| <= n
    ensures DistinctKeys(r)
  {
    if n == 0 then []
    else
      assert es[n - 1] in es;
      var prev := NormalizedPrefix(es, n - 1);
      var (k, v) := (es[n - 1].0, NormalizedEntry(es[n - 1].1));
      PutKeys(prev, k, v);
      PutKeepsKeysDistinct(prev, k, v);
      Put(prev, k, v)
  }

  /** What the `$normalize` closure returns for an array. */
  function Normalized(es: Entries): (r: Entries)
    ensures |r| <= |es|
    ensures DistinctKeys(r)
  {
    NormalizedPrefix(es, |es|)
  }

  /**
   * The `$normalize` closure: one pass over the array, copying scalars and
   * sequential sub-arrays and normalizing every other sub-array recursively.
   * On any PHP array it gives back the array it was given.
   */
  method Normalize(arr: Entries) returns (result: Entries)
    decreases Arr(arr)
    ensures result == Normalized(arr)
    ensures WellFormed(Arr(arr)) ==> result == arr
  {
    result := [];
    var i := 0;
    while i < |arr|
      invariant 0 <= i <= |arr|
      invariant result == NormalizedPrefix(arr, i)
    {
      var (k, v) := arr[i];
      assert arr[i] in arr;
      var stored := v;
      if v.Arr? && !IsSequential(v.entries) {
        var inner := Normalize(v.entries);
        stored := Arr(inner);
      }
      assert stored == NormalizedEntry(v);
      result := Put(result, k, stored);
      i := i + 1;
    }
    if WellFormed(Arr(arr)) {
      NormalizedIsIdentity(arr);
    }
  }

  /** Normalizing a well-formed value gives it back unchanged. */
  lemma {:induction false} NormalizedEntryIsIdentity(v: Value)
    requires WellFormed(v)
    ensures NormalizedEntry(v) == v
    decreases v, 1, 0
  {
    match v
    case Arr(es) =>
      if !IsSequential(es) {
        NormalizedPrefixIsPrefix(es, |es|);
        assert es[..|es|] == es;
      }
    case _ =>
  }

  /** After `n` steps the loop has rebuilt exactly the first `n` entries. */
  lemma {:induction false} NormalizedPrefixIsPrefix(es: Entries, n: nat)
    requires n <= |es| && WellFormed(Arr(es))
    ensures NormalizedPrefix(es, n) == es[..n]
    decreases Arr(es), 0, n
  {
    if n > 0 {
      var (k, v) := es[n - 1];
      assert es[n - 1] in es;
      assert WellFormed(v);
      NormalizedEntryIsIdentity(v);
      NormalizedPrefixIsPrefix(es, n - 1);
      var prefix := es[..n - 1];
      assert NormalizedPrefix(es, n) == Put(prefix, k, v);
      assert forall j :: 0 <= j < |prefix| ==> prefix[j].0 != k;
      PutNewKeyAppends(prefix, k, v);
      assert es[..n] == prefix + [(k, v)];
    }
  }

  /** `$normalize` is the identity: same keys, same order, equal values, at every depth. */
  lemma NormalizedIsIdentity(es: Entries)
    requires WellFormed(Arr(es))
    ensures Normalized(es) == es
  {
    NormalizedPrefixIsPrefix(es, |es|);
    assert es[..|es|] == es;
  }

  /** The empty array is not sequential, and normalizing it still gives `[]`. */
  lemma EmptyArrayNotSequential()
    ensures !IsSequential([])
    ensures NormalizedEntry(EmptyArray) == EmptyArray
  {
    assert PhpRange(0, -1) == [0, -1];
  }

  /**
   * `Request::formData($key, $default)`: for a POST, PUT or PATCH, the
   * normalized form array without a key and its element at `$key` (or
   * `$default`) with one; otherwise `$key ? $default : []`.
   */
  function FormData(req: RequestContext, key: Option<string>, default: Value): (r: Value)
    ensures Method(req) !in FormMethods ==> r == DefaultOrEmpty(key, default)
    ensures Method(req) in FormMethods && key.None? ==> r == Arr(Normalized(req.form))
    ensures Method(req) in FormMethods && key.Some? ==>
              r == Coalesce(Normalized(req.form), ArrayKey(key.value), default)
  {
    if Method(req) !in FormMethods then DefaultOrEmpty(key, default)
    else
      var data := Normalized(req.form);
      if key.None? then Arr(data)
      else Coalesce(data, ArrayKey(key.value), default)
  }

  /** Because normalizing changes nothing, `formData` answers from the posted form as it came. */
  lemma FormDataReadsPostedForm(req: RequestContext, key: Option<string>, default: Value)
    requires WellFormed(Arr(req.form)) && Method(req) in FormMethods
    ensures key.None? ==> FormData(req, key, default) == Arr(req.form)
    ensures key.Some? ==> FormData(req, key, default) == Coalesce(req.form, ArrayKey(key.value), default)
  {
    NormalizedIsIdentity(req.form);
  }

  // How the accessors relate

  /** With no request method the request is treated as a GET. */
  lemma MissingMethodIsGet(req: RequestContext, key: Option<string>, default: Value)
    requires req.requestMethod.None?
    ensures Json(req) == EmptyArray
    ensures FormData(req, key, default) == DefaultOrEmpty(key, default)
    ensures Parameter(req, key, default) == Parameter(req.(requestMethod := Some("GET")), key, default)
    ensures !HasJsonContentType(req.headers) ==> key.None? ==> Parameter(req, key, default) == Arr(req.query)
  {
  }

  /** When a request is refused, `parameter` and `formData` do not look at the query or the posted form at all. */
  lemma RefusedRequestsIgnoreData(req: RequestContext, key: Option<string>, default: Value, query: Entries, form: Entries)
    ensures ParameterRefused(req) ==>
              Parameter(req.(query := query), key, default) == Parameter(req, key, default)
    ensures Method(req) !in FormMethods ==>
              FormData(req.(form := form), key, default) == FormData(req, key, default)
  {
  }

  /**
   * Declaring the body JSON is enough for `parameter` to refuse, whatever the
   * method and whether or not the body decodes; and every request `json`
   * answers with a non-empty result declares its body JSON.
   */
  lemma JsonShadowsQuery(req: RequestContext, key: Option<string>, default: Value)
    ensures HasJsonContentType(req.headers) ==> Parameter(req, key, default) == DefaultOrEmpty(key, default)
    ensures Json(req) != EmptyArray ==> HasJsonContentType(req.headers)
  {
  }

  /**
   * On a refused request the key's truthiness decides, so "" and "0" give
   * `[]` even with a default; on an accepted one only a missing key does.
   */
  lemma FalsyKeysIgnoreDefault(req: RequestContext, key: string, default: Value)
    requires key == "" || key == "0"
    ensures ParameterRefused(req) ==> Parameter(req, Some(key), default) == EmptyArray
    ensures !ParameterRefused(req) ==> Parameter(req, Some(key), default) == Coalesce(req.query, ArrayKey(key), default)
    ensures Method(req) !in FormMethods ==> FormData(req, Some(key), default) == EmptyArray
  {
  }
}
