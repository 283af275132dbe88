# request-helpers: a Dafny model of the `Request` accessors

The PHP library `gabogalro\requestHelpers` offers one static class, `Request`,
whose methods read an HTTP request that PHP has already parsed: the JSON body
(`json`), the bearer token of the `Authorization` header (`getBearerToken`),
query parameters (`parameter`) and form fields (`formData`, which passes the
posted array through a recursive `$normalize` closure).

This model replaces the ambient inputs (`$_SERVER['REQUEST_METHOD']`,
`getallheaders()`, `$_GET`, `$_POST`, and the body after `json_decode`) with
one immutable record, `Request.RequestContext`, passed to every accessor.
Accessors are pure functions of that record. `$normalize` loops over its array
and fills `$result` one element at a time, so it is a method with a loop,
proved equal to a specification function. The library's answers are proved
about that function.

Files:

- `wrappers.dfy`: `Option`.
- `php_strings.dfy` (module `PhpStrings`): PCRE's `\s`, `stripos`, string
  truthiness, and the decimal integer strings that PHP reads as integer keys.
- `php_arrays.dfy` (module `PhpArrays`): ordered arrays with integer or string
  keys, `array_keys`, `range`, `$a[$k] = $v`, `$a[$k] ?? $d`, and the string
  key cast.
- `request.dfy` (module `Request`): the class itself.
- `request_examples.dfy` (module `RequestExamples`): concrete requests and
  the answers proved for them.

Three facts about the code shape the model:

- `range(0, count($v) - 1)` on an empty array is `range(0, -1)`, which is
  `[0, -1]` (src/Request.php:102). So `[]` is not sequential and is recursed
  into, and the recursion returns `[]` (`Request.EmptyArrayNotSequential`).
- Headers are looked up by the exact keys `Authorization` and `Content-Type`
  (src/Request.php:25, 40, 66). The model looks them up in a map the same way.
- `json()` calls `file_get_contents('php://input')` on every call that passes
  the method and content-type test (src/Request.php:26-27); nothing is cached.
  The model carries the decoded body as a field of the request, so two calls
  to `Json` on one request give the same answer.

## Model

| member | source | states |
|---|---|---|
| `Request.Json` | src/Request.php:21-31 | The result is never null. It is `[]` unless the method (default `GET`) is POST, PUT, PATCH or DELETE and `Content-Type` contains `application/json` ignoring case. When both hold, it is the decoded body, or `[]` when decoding gives null. |
| `Request.Method` | src/Request.php:24 | `$_SERVER['REQUEST_METHOD'] ?? 'GET'`: the method when it is set, `GET` when it is not. The same default is used at lines 59 and 88. |
| `Request.HasJsonContentType` | src/Request.php:25 | True exactly when there is a `Content-Type` header and `application/json` occurs in it somewhere, ignoring ASCII case. `parameter` makes the same test at line 66. |
| `Request.DefaultOrEmpty` | src/Request.php:62 | `$key ? $default : []`: `[]` for a null key and for the keys `""` and `"0"`, and `$default` for every other key. The same expression is used at lines 67 and 91. |
| `Request.BearerAt` | src/Request.php:41 | `Bearer` at i, a `\s` byte at i+6 and a `\S` byte at i+7: the positions where the unanchored pattern `/Bearer\s(\S+)/` can succeed. It has no contract of its own. `Request.FindBearerFrom`, `Request.GetBearerToken` and `Request.BearerTokenIsMaximalRun` are stated through it. |
| `Request.FindBearerFrom` | src/Request.php:41 | The first position at or after `from` where `Bearer`, one whitespace byte and a non-whitespace byte occur; none when the pattern matches nowhere. |
| `Request.NonSpaceRun` | src/Request.php:41-42 | What the greedy group `(\S+)` captures: a run of non-whitespace bytes taken from the string at the given position, ending at the end of the string or before a whitespace byte. |
| `Request.GetBearerToken` | src/Request.php:36-48 | Null exactly when there is no `Authorization` header. The raw header when the pattern matches nowhere. Otherwise the non-whitespace run after the leftmost match. |
| `Request.BearerTokenIsMaximalRun` | src/Request.php:41-42 | When the header contains a match, the token is non-empty and has no whitespace. It stands right after the leftmost `Bearer<whitespace>` and runs to the end of the header or the next whitespace byte. |
| `Request.ParameterRefused` | src/Request.php:61-66 | The method is not GET, PUT, PATCH or DELETE, or `Content-Type` contains `application/json` ignoring case. It has no contract of its own. The contracts of `Request.Parameter`, `Request.RefusedRequestsIgnoreData` and `Request.FalsyKeysIgnoreDefault` use it. |
| `Request.Parameter` | src/Request.php:57-77 | `$key ? $default : []` when the method is not GET, PUT, PATCH or DELETE, or the body is declared JSON. These branches never read the query. Otherwise it returns the whole query array with no key, or `$_GET[$key] ?? $default` with one. |
| `Request.FalsyKeysIgnoreDefault` | src/Request.php:61-68 | Keys `""` and `"0"` are falsy in the early exits, so they give `[]` even with a default. Once past the gates they are looked up like any other key (`"0"` as integer key 0). |
| `Request.RefusedRequestsIgnoreData` | src/Request.php:59-92 | When the method or content type refuses the request, `parameter` gives the same answer whatever the query holds. When the method refuses it, `formData` gives the same answer whatever was posted. |
| `Request.JsonShadowsQuery` | src/Request.php:66-67 | A `Content-Type` containing `application/json` alone makes `parameter` refuse, whatever the method and whether the body decodes. Every request for which `json` returns a non-empty result declares such a content type. |
| `Request.MissingMethodIsGet` | src/Request.php:59 | With no request method the request is treated as a GET. `json` then gives `[]` and `formData` gives `$key ? $default : []`. `parameter` answers exactly as for an explicit GET, so it goes on to the query when the body is not JSON. |
| `Request.IsSequential` | src/Request.php:102 | `array_keys($v) === range(0, count($v) - 1)`, compared key by key. It has no contract of its own. `Request.SequentialIff` characterizes it. |
| `Request.SequentialIff` | src/Request.php:102 | An array passes `array_keys($v) === range(0, count($v) - 1)` iff it is non-empty and its keys are exactly the integers 0..n-1, in order. |
| `Request.EmptyArrayNotSequential` | src/Request.php:102-103 | `[]` is not sequential because `range(0, -1)` is `[0, -1]`. Normalizing `[]` still gives `[]`. |
| `Request.NormalizedEntry` | src/Request.php:100-106 | What the loop stores for one element. Scalars and null are stored as they are, arrays stay arrays, and every array stored has distinct keys. |
| `Request.NormalizedPrefix` | src/Request.php:98-107 | `$result` after the first n iterations holds at most n entries, and no key occurs twice in it. |
| `Request.Normalized` | src/Request.php:97-109 | What `$normalize` returns: at most as many entries as the input, with distinct keys, even for an input that repeats a key. |
| `Request.Normalize` | src/Request.php:97-109 | The loop builds exactly the specification `Normalized(arr)`. On every PHP array (distinct keys at every depth) the result is the input array itself. |
| `Request.NormalizedPrefixIsPrefix` | src/Request.php:98-107 | After the first n iterations, `$result` holds exactly the first n entries of the input: same keys, same order, equal values. |
| `Request.NormalizedEntryIsIdentity` | src/Request.php:100-106 | The value stored for each element equals the element: scalars and sequential arrays are copied, and other arrays normalize to themselves. |
| `Request.NormalizedIsIdentity` | src/Request.php:97-109 | `$normalize` is the identity on every PHP array, at every nesting depth. |
| `Request.FormData` | src/Request.php:86-118 | `$key ? $default : []` unless the method is POST, PUT or PATCH. Otherwise it returns the normalized form with no key, or its element at the key (with the key cast) with `$default` when the key is absent or null. |
| `Request.FormDataReadsPostedForm` | src/Request.php:111-117 | Because normalizing changes nothing, `formData` answers from `$_POST` as posted: the whole array, or `$_POST[$key] ?? $default`. |
| `PhpStrings.IsSpace` | src/Request.php:41 | PCRE's `\s` without the `u` flag: the space and the bytes 9 to 13 (tab, line feed, vertical tab, form feed, carriage return). It has no contract of its own. `Request.BearerAt` and `Request.NonSpaceRun` use it. |
| `PhpStrings.IsTruthyOrNull` | src/Request.php:62 | The truthiness of a `?string` key: null, `""` and `"0"` are false, and every other string is true. It has no contract of its own. `Request.DefaultOrEmpty` states its effect. |
| `PhpStrings.Stripos` | src/Request.php:25 | `stripos` finds some position iff the needle occurs ignoring ASCII case, and the position it finds is the leftmost occurrence. |
| `PhpStrings.StriposIgnoresCase` | src/Request.php:66 | The `Content-Type` test gives the same answer for a header and for its lower-cased copy. |
| `PhpArrays.PhpRange` | src/Request.php:102 | `range($lo, $hi)` has `hi - lo + 1` elements when `lo <= hi` and `lo - hi + 1` otherwise. It counts up from `lo` when `lo <= hi` and down otherwise, so `range(0, -1)` is `[0, -1]`. |
| `PhpArrays.KeysOf` | src/Request.php:102 | `array_keys($a)`: one key per entry, in iteration order. |
| `PhpArrays.Put` | src/Request.php:103-105 | `$result[$k] = $v`. It has no contract of its own. `PhpArrays.PutKeys`, `PhpArrays.PutReadsBack` and `PhpArrays.PutLeavesOthers` prove that an existing key keeps its place and a new one is appended, that `$k` then reads `$v`, and that every other key reads as before. |
| `PhpArrays.PutKeys` | src/Request.php:103-105 | `$result[$k] = $v` leaves the key list alone when `$k` is present and appends `$k` at the end when it is new. |
| `PhpArrays.PutReadsBack` | src/Request.php:103-105 | After `$result[$k] = $v`, reading `$k` gives `$v`. |
| `PhpArrays.PutLeavesOthers` | src/Request.php:103-105 | After `$result[$k] = $v`, every other key reads as it did before. |
| `PhpArrays.PutNewKeyAppends` | src/Request.php:103-105 | Assigning to a key the array does not hold appends the pair at the end. |
| `PhpArrays.PutKeepsKeysDistinct` | src/Request.php:103-105 | Assignment never makes a key occur twice. |
| `PhpArrays.Coalesce` | src/Request.php:76 | `$a[$k] ?? $d` is the default when the key is absent. When the key is present, it is the element at its first occurrence, or the default when that element is null. |
| `PhpArrays.IndexOf` | src/Request.php:76 | The position of the first entry with the key; none exactly when no entry has it. |
| `PhpArrays.Lookup` | src/Request.php:76 | `$a[$k]` as set or unset: unset exactly when no entry has the key, otherwise the element at the key's first occurrence (which may be null). `formData` reads its key the same way at line 117. |
| `PhpArrays.ArrayKey` | src/Request.php:76 | The key `$a[$s]` uses for a string. A string that is not cast stays the same string key, and an integer key always fits in 64 bits. The same cast applies to `$data[$key]` at line 117. |
| `PhpArrays.ArrayKeyOfIntegerString` | src/Request.php:76 | The decimal text of an in-range 64-bit integer addresses the integer key, so `$_GET['5']` reads key 5. |
| `PhpArrays.ArrayKeyIntOnlyFromCanonical` | src/Request.php:76 | A string addresses integer key n only if it is the canonical decimal text of n and n fits in 64 bits. `"05"`, `"-0"` and `"+5"` stay strings. |
| `PhpArrays.ArrayKeyInjective` | src/Request.php:117 | Two different key strings never address the same element. |
| `PhpStrings.IntegerStringRoundTrip` | src/Request.php:76 | Printing an integer gives a canonical integer string that reads back as the same integer. |
| `PhpStrings.IntegerStringOfValue` | src/Request.php:76 | Reading a canonical integer string and printing the value gives back the same string. |
| `RequestExamples.BearerHeaderGivesToken` | src/Request.php:41-42 | `Authorization: Bearer abc123` gives `abc123`. |
| `RequestExamples.RawHeaderIsReturned` | src/Request.php:40-47 | `Authorization: abc123` gives `abc123`. No header gives null. |
| `RequestExamples.QueryParameterAndJsonShadow` | src/Request.php:66-76 | `parameter('x', 'fallback')` on `GET ?x=5` gives `"5"`. With `Content-Type: application/json; charset=utf-8` it gives `"fallback"`. |
| `RequestExamples.NestedFormComesBackUnchanged` | src/Request.php:97-114 | For the form `{a: {0: x, 1: y}, b: {city: {0: z}, zip: 1}}`, `a` is sequential and `b` is not, and `formData()` returns the form unchanged. |
| `RequestExamples.FormDataOnGetIsEmpty` | src/Request.php:90-92 | On a GET, `formData()` is `[]` whatever was posted. |

## Left out

- `headers()` and `files()` (src/Request.php:11-14, 125-128) only pass `getallheaders()` and `$_FILES` through. Headers are a field of the request record, and uploaded files are not modelled.
- `json()` reads `php://input` on every call that passes the method and content-type test, and caches nothing. A fixed `decodedBody` assumes that stream gives the same bytes on every read within one request, as it does from PHP 5.6 on for a body that is not `multipart/form-data`.
- Reading `php://input` and `json_decode` are I/O and a foreign parser. The record carries the decoded body as an opaque `Value`, and `Null` stands for every case where `json_decode` returns null (invalid JSON or a literal `null`).
- JSON numbers and booleans in a decoded body are carried as `Scalar` text. Nothing in the class inspects them.
- Only the one pattern `/Bearer\s(\S+)/` is modelled, by a hand-written scan. General regular expressions are not.
- Strings are byte strings, with one `char` per byte. `\s` is PCRE's non-UTF class (space and bytes 9 to 13), and `stripos` folds ASCII letters only, as PHP 8.2 and later do.
- The integer-key cast assumes a 64-bit PHP build.
- PHP arrays never hold a key twice. `Request.Normalize` and `Request.NormalizedIsIdentity` state the identity for arrays with distinct keys at every depth (`PhpArrays.WellFormed`), which is every array PHP can build.
- `Request.Normalize`: the model does not bound recursion depth. PHP's own limit on nesting in request parsing (`max_input_nesting_level`) is not part of this model.
- `in_array` compares loosely. Every method name it is checked against is non-numeric, so loose and exact comparison agree, and the model compares exactly.
