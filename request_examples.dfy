/** Concrete requests and what the accessors answer for them. */
module RequestExamples {
  import opened Wrappers
  import opened PhpStrings
  import opened PhpArrays
  import opened Request

  function GetRequest(headers: map<string, string>, query: Entries): RequestContext {
    RequestContext(Some("GET"), headers, query, [], Null)
  }

  /** `Authorization: Bearer abc123` gives the token `abc123`. */
  lemma BearerHeaderGivesToken()
    ensures GetBearerToken(GetRequest(map["Authorization" := "Bearer abc123"], [])) == Some("abc123")
  {
    var header := "Bearer abc123";
    var req := GetRequest(map["Authorization" := header], []);
    assert req.headers["Authorization"] == header;
    assert header[0..6] == "Bearer";
    assert IsLeftmostBearer(header, 0);
    var token := NonSpaceRun(header, 7);
    assert forall j :: 7 <= j < 13 ==> !IsSpace(header[j]);
    assert |token| == 6;
    assert header[7..13] == "abc123";
  }

  /** A header without the `Bearer` prefix comes back as it is; no header gives null. */
  lemma RawHeaderIsReturned()
    ensures GetBearerToken(GetRequest(map["Authorization" := "abc123"], [])) == Some("abc123")
    ensures GetBearerToken(GetRequest(map[], [])) == None
  {
  }

  /** `parameter('x', 'fallback')` on `GET ?x=5` is "5", and "fallback" once the body is declared JSON. */
  lemma QueryParameterAndJsonShadow()
    ensures Parameter(GetRequest(map[], [(StrKey("x"), Scalar("5"))]), Some("x"), Scalar("fallback")) == Scalar("5")
    ensures Parameter(GetRequest(map["Content-Type" := "application/json; charset=utf-8"], [(StrKey("x"), Scalar("5"))]),
                      Some("x"), Scalar("fallback")) == Scalar("fallback")
  {
    var ct := "application/json; charset=utf-8";
    assert MatchesIgnoringCaseAt(ct, "application/json", 0) by {
      assert ct[0..16] == "application/json";
    }
    assert ArrayKey("x") == StrKey("x");
  }

  /** `{0: "x", 1: "y"}`, the array `a[]=x&a[]=y` posts. */
  function ListOfTwo(): Value {
    Arr([(IntKey(0), Scalar("x")), (IntKey(1), Scalar("y"))])
  }

  /** `{city: {0: "z"}, zip: "1"}`, the array `b[city][]=z&b[zip]=1` posts. */
  function Address(): Value {
    Arr([(StrKey("city"), Arr([(IntKey(0), Scalar("z"))])), (StrKey("zip"), Scalar("1"))])
  }

  function NestedForm(): Entries {
    [(StrKey("a"), ListOfTwo()), (StrKey("b"), Address())]
  }

  /**
   * In `{a: {0: "x", 1: "y"}, b: {city: {0: "z"}, zip: "1"}}`, `a` is
   * sequential and copied, `b` is not and is normalized, and the whole form
   * comes back unchanged.
   */
  lemma NestedFormComesBackUnchanged()
    ensures IsSequential(ListOfTwo().entries)
    ensures !IsSequential(Address().entries)
    ensures FormData(RequestContext(Some("POST"), map[], [], NestedForm(), Null), None, Null) == Arr(NestedForm())
  {
    SequentialIff(ListOfTwo().entries);
    SequentialIff(Address().entries);
    NestedFormIsWellFormed();
    FormDataReadsPostedForm(RequestContext(Some("POST"), map[], [], NestedForm(), Null), None, Null);
  }

  /** Every array in the example form has distinct keys. */
  lemma NestedFormIsWellFormed()
    ensures WellFormed(Arr(NestedForm()))
  {
    var city := Arr([(IntKey(0), Scalar("z"))]);
    assert WellFormed(city);
    assert WellFormed(ListOfTwo());
    assert WellFormed(Address()) by {
      assert Address().entries[0].1 == city;
    }
    assert NestedForm()[0].1 == ListOfTwo() && NestedForm()[1].1 == Address();
  }

  /** On a GET, `formData()` is `[]` whatever was posted. */
  lemma FormDataOnGetIsEmpty(form: Entries)
    ensures FormData(RequestContext(Some("GET"), map[], [], form, Null), None, Null) == EmptyArray
  {
  }
}
