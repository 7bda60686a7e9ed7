/**
 * The HTTP layer's part of the customer directory (server/src/app.ts): the
 * translation of a request's query string into a search, and the rule that
 * a posted customer is stored only when it passes validation.
 */
module App {
  import opened Wrappers
  import opened JsString
  import opened JsNumber
  import opened Types
  import opened CustomerDirectory

  /**
   * One parsed query-string value: `?x=a` gives a string, `?x=a&x=b` an
   * array of strings.
   */
  datatype QueryValue = Text(text: string) | List(items: seq<string>)

  /** `String(value)`, which is what `parseInt` reads: an array is joined with ",". */
  function AsText(v: QueryValue): (s: string)
    ensures v.Text? ==> s == v.text
    ensures v.List? && |v.items| == 1 ==> s == v.items[0]
  {
    match v
    case Text(t) => t
    case List(items) => Join(items, ",")
  }

  /**
   * JavaScript truthiness of an absent, string or array value: `undefined`
   * and "" are falsy, and every array is truthy, even `[]`, whose text is "".
   */
  predicate IsTruthy(v: Option<QueryValue>): (b: bool)
    ensures v.None? ==> !b
    ensures v.Some? && v.value.Text? ==> (b <==> AsText(v.value) != "")
    ensures v.Some? && v.value.List? ==> b
    ensures v == Some(List([])) ==> b && AsText(v.value) == ""
  {
    v.Some? && (v.value.List? || v.value.text != "")
  }

  /** The query properties `buildSearchParams` looks at. */
  datatype RawQuery = RawQuery(
    searchTerm: Option<QueryValue>,
    after: Option<QueryValue>,
    limit: Option<QueryValue>,
    orderBy: Option<string>,
    orderDirection: Option<string>)

  /**
   * `buildSearchTerms`: an array is passed through unchanged, a non-empty
   * string becomes a one-element list, and "" (falsy) gives `undefined`.
   */
  function BuildSearchTerms(v: QueryValue): (terms: Option<seq<string>>)
    ensures terms.None? <==> v == Text("")
    ensures terms.Some? && v.List? ==> terms.value == v.items
    ensures terms.Some? && v.Text? ==> terms.value == [v.text] && |terms.value| == 1
  {
    if v == Text("") then None
    else
      match v
      case List(items) => Some(items)
      case Text(t) => Some([t])
  }

  /**
   * `buildSearchParams`: each key of the search argument is set, one `if`
   * after another, only when its raw value is truthy; `after` and `limit`
   * are parsed with `parseInt`, `orderBy` and `orderDirection` are copied as
   * they are, and nothing else is ever set.
   */
  method BuildSearchParams(query: RawQuery) returns (params: SearchQuery)
    ensures params.searchTerms.Some? <==> IsTruthy(query.searchTerm)
    ensures params.searchTerms.Some? ==> Some(params.searchTerms.value) == BuildSearchTerms(query.searchTerm.value)
    ensures params.after.Some? <==> IsTruthy(query.after)
    ensures params.after.Some? ==> params.after.value == ParseInt(AsText(query.after.value))
    ensures params.limit.Some? <==> IsTruthy(query.limit)
    ensures params.limit.Some? ==> params.limit.value == ParseInt(AsText(query.limit.value))
    ensures params.orderBy.Some? <==> query.orderBy.Some? && query.orderBy.value != ""
    ensures params.orderBy.Some? ==> params.orderBy == query.orderBy
    ensures params.orderDirection.Some? <==> query.orderDirection.Some? && query.orderDirection.value != ""
    ensures params.orderDirection.Some? ==> params.orderDirection == query.orderDirection
    ensures query == RawQuery(None, None, None, None, None) ==> params == SearchQuery(None, None, None, None, None)
  {
    params := SearchQuery(None, None, None, None, None);
    if IsTruthy(query.searchTerm) {
      var terms := BuildSearchTerms(query.searchTerm.value);
      if terms.Some? {
        params := params.(searchTerms := terms);
      }
    }
    if IsTruthy(query.after) {
      params := params.(after := Some(ParseInt(AsText(query.after.value))));
    }
    if IsTruthy(query.limit) {
      params := params.(limit := Some(ParseInt(AsText(query.limit.value))));
    }
    if query.orderBy.Some? && query.orderBy.value != "" {
      params := params.(orderBy := query.orderBy);
    }
    if query.orderDirection.Some? && query.orderDirection.value != "" {
      params := params.(orderDirection := query.orderDirection);
    }
  }

  /**
   * A cursor the browser sends back as the decimal text of a record id is
   * read back by `buildSearchParams` as exactly that id.
   */
  lemma CursorTextRoundTrip(id: int)
    ensures IsTruthy(Some(Text(IntToString(id))))
    ensures ParseInt(AsText(Text(IntToString(id)))) == Int(id)
  {
    ParseIntOfIntToString(id);
  }

  /** The reply to `POST /customers`. */
  datatype Response = Created(record: CustomerWithId) | Unprocessable(errors: map<Field, string>)
  {
    /** The HTTP status code sent with the reply. */
    function Status(): (code: int)
      ensures code == 201 <==> Created?
      ensures code == 422 <==> Unprocessable?
    {
      if Created? then 201 else 422
    }
  }

  /**
   * The `POST /customers` handler: an acceptable customer is stored under
   * the next id and returned; otherwise the store, `nextId` included, is
   * left as it was and the validation messages are returned.
   */
  method PostCustomer(customers: Customers, customer: Customer) returns (response: Response)
    requires customers.Valid()
    modifies customers
    ensures customers.Valid()
    ensures response.Created? <==> old(customers.Acceptable(customer))
    ensures response.Created? ==>
      && response.record == CustomerWithId(old(customers.nextId), customer)
      && customers.customers == old(customers.customers)[response.record.id := response.record]
      && customers.nextId == old(customers.nextId) + 1
    ensures response.Unprocessable? ==>
      && customers.customers == old(customers.customers)
      && customers.nextId == old(customers.nextId)
      && response.errors != map[]
      && customers.ReportsErrors(customer, response.errors)
  {
    var valid := customers.IsValid(customer);
    if valid {
      var customerWithId := customers.Add(customer);
      response := Created(customerWithId);
    } else {
      var errors := customers.Errors(customer);
      response := Unprocessable(errors);
    }
  }
}
