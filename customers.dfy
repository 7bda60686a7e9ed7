/**
 * The server's customer directory (server/src/customers.ts): an in-memory
 * store that hands out ids 0, 1, 2, ..., validates customers, and answers
 * multi-term prefix searches sorted by a field and paginated by a cursor.
 */
module CustomerDirectory {
  import opened Wrappers
  import opened JsString
  import opened JsNumber
  import opened JsArray
  import opened Types

  /**
   * A stored customer: `Object.assign({}, customer, { id })`. The numeric
   * `id` the store assigns replaces any `id` the posted customer carried.
   */
  datatype CustomerWithId = CustomerWithId(id: int, customer: Customer)

  /**
   * `record[name]` when that property holds a string. `id` holds a number,
   * and any other name gives `undefined` or a non-string.
   */
  function TextProperty(r: CustomerWithId, name: string): (p: Option<string>)
    ensures !IsTextField(name) ==> p == None
  {
    if name == "firstName" then r.customer.firstName
    else if name == "lastName" then r.customer.lastName
    else if name == "phoneNumber" then r.customer.phoneNumber
    else if name == "stylist" then r.customer.stylist
    else if name == "service" then r.customer.service
    else if name == "notes" then r.customer.notes
    else None
  }

  /** The names of the properties of a stored record that can hold a string. */
  predicate IsTextField(name: string)
  {
    name == "firstName" || name == "lastName" || name == "phoneNumber"
    || name == "stylist" || name == "service" || name == "notes"
  }

  /** `!customer[field] || customer[field].trim() === ""`. */
  predicate IsMissing(v: Option<string>)
  {
    v.None? || IsBlank(v.value)
  }

  /** What `RegExp.prototype.test` reads of a property: `undefined` is read as the text "undefined". */
  function RegExpInput(v: Option<string>): (s: string)
    ensures v.Some? ==> s == v.value
    ensures v.None? ==> s == "undefined"
  {
    match v
    case Some(s) => s
    case None => "undefined"
  }

  /** `startsWith.test(firstName) || startsWith.test(lastName) || startsWith.test(phoneNumber)`. */
  predicate MatchesTerm(r: CustomerWithId, term: string): (b: bool)
    ensures term == "" ==> b
    ensures b ==> |term| <= |RegExpInput(r.customer.firstName)| || |term| <= |RegExpInput(r.customer.lastName)|
                  || |term| <= |RegExpInput(r.customer.phoneNumber)|
  {
    StartsWithIgnoringCase(RegExpInput(r.customer.firstName), term)
    || StartsWithIgnoringCase(RegExpInput(r.customer.lastName), term)
    || StartsWithIgnoringCase(RegExpInput(r.customer.phoneNumber), term)
  }

  /** A record matches a term exactly when the case-folded term is a prefix of one of its case-folded texts. */
  lemma MatchesTermFolded(r: CustomerWithId, term: string)
    ensures MatchesTerm(r, term) <==> FoldAll(term) <= FoldAll(RegExpInput(r.customer.firstName))
                                      || FoldAll(term) <= FoldAll(RegExpInput(r.customer.lastName))
                                      || FoldAll(term) <= FoldAll(RegExpInput(r.customer.phoneNumber))
  {
    StartsWithIgnoringCaseFolded(RegExpInput(r.customer.firstName), term);
    StartsWithIgnoringCaseFolded(RegExpInput(r.customer.lastName), term);
    StartsWithIgnoringCaseFolded(RegExpInput(r.customer.phoneNumber), term);
  }

  /** The position of the first of `terms` that `r` matches, or `|terms|` when it matches none. */
  function FirstMatch(r: CustomerWithId, terms: seq<string>): (t: nat)
    ensures t <= |terms|
    ensures t < |terms| ==> MatchesTerm(r, terms[t])
    ensures forall i :: 0 <= i < t ==> !MatchesTerm(r, terms[i])
  {
    if terms == [] then 0
    else if MatchesTerm(r, terms[0]) then 0
    else
      assert forall i :: 1 <= i < |terms| ==> terms[i] == terms[1..][i - 1];
      1 + FirstMatch(r, terms[1..])
  }

  /** `orderDirection === "desc"`: anything else, absent included, sorts ascending. */
  predicate Descending(orderDirection: Option<string>)
  {
    orderDirection == Some("desc")
  }

  /** The argument of `search`; every property may be absent. */
  datatype SearchQuery = SearchQuery(
    searchTerms: Option<seq<string>>,
    limit: Option<Num>,
    orderBy: Option<string>,
    orderDirection: Option<string>,
    after: Option<Num>)

  /** The same query with the id of the last record of `page` as the cursor. */
  function NextQuery(query: SearchQuery, page: seq<CustomerWithId>): (next: SearchQuery)
    requires |page| > 0
    ensures next.after == Some(Int(page[|page| - 1].id))
    ensures next.(after := query.after) == query
    ensures next.searchTerms == query.searchTerms && next.limit == query.limit
    ensures next.orderBy == query.orderBy && next.orderDirection == query.orderDirection
  {
    query.(after := Some(Int(page[|page| - 1].id)))
  }

  /** `limit || 10`. */
  function EffectiveLimit(limit: Option<Num>): (n: int)
    ensures n != 0
    ensures limit.Some? && Truthy(limit.value) ==> n == limit.value.n
    ensures !(limit.Some? && Truthy(limit.value)) ==> n == 10
  {
    match limit
    case Some(Int(n)) => if n != 0 then n else 10
    case _ => 10
  }

  /** `orderBy || "firstName"`. */
  function EffectiveOrderBy(orderBy: Option<string>): (name: string)
    ensures orderBy.Some? && orderBy.value != "" ==> name == orderBy.value
    ensures orderBy.None? || orderBy == Some("") ==> name == "firstName"
  {
    match orderBy
    case Some(s) => if s != "" then s else "firstName"
    case None => "firstName"
  }

  /** `searchTerms || [""]`: only a missing list is defaulted; an empty array is truthy and kept. */
  function EffectiveTerms(terms: Option<seq<string>>): (ts: seq<string>)
    ensures terms.Some? ==> ts == terms.value
    ensures terms.None? ==> ts == [""]
  {
    match terms
    case Some(ts) => ts
    case None => [""]
  }

  /** The sort key; only used when every record being sorted has the property as a string. */
  function SortKey(r: CustomerWithId, orderBy: string): string
  {
    TextProperty(r, orderBy).GetOr("")
  }

  function KeyOf(orderBy: string): CustomerWithId -> string
  {
    r => SortKey(r, orderBy)
  }

  /** `.map((id) => this.customers[Number(id)])`. */
  function Lookup(store: map<int, CustomerWithId>, ids: seq<int>): (records: seq<CustomerWithId>)
    requires forall i :: 0 <= i < |ids| ==> ids[i] in store
    ensures |records| == |ids|
    ensures forall i :: 0 <= i < |ids| ==> records[i] == store[ids[i]]
  {
    if ids == [] then [] else [store[ids[0]]] + Lookup(store, ids[1..])
  }

  /** Looking up distinct keys of records that carry their own key gives distinct records, with distinct ids. */
  lemma LookupOfKeys(store: map<int, CustomerWithId>, ids: seq<int>)
    requires forall i :: 0 <= i < |ids| ==> ids[i] in store && store[ids[i]].id == ids[i]
    requires NoDuplicates(ids)
    ensures NoDuplicates(Lookup(store, ids)) && DistinctIds(Lookup(store, ids))
    ensures forall r :: r in Lookup(store, ids) <==> r.id in ids && r.id in store && store[r.id] == r
  {
    var records := Lookup(store, ids);
    forall r | r in records ensures r.id in ids && store[r.id] == r {
      var i :| 0 <= i < |records| && records[i] == r;
    }
    forall k | k in ids ensures store[k] in records {
      var i :| 0 <= i < |ids| && ids[i] == k;
      assert records[i] == store[k];
    }
  }

  /**
   * `after ? sorted.findIndex((c) => c.id === after) + 1 : 0`, as written:
   * a cursor of 0 (or NaN) is falsy and counts as no cursor.
   */
  function AfterPosition(sorted: seq<CustomerWithId>, after: Option<Num>): (p: nat)
    ensures p <= |sorted|
    ensures !(after.Some? && Truthy(after.value)) ==> p == 0
    ensures after.Some? && Truthy(after.value) && p > 0 ==>
      sorted[p - 1].id == after.value.n && forall j :: 0 <= j < p - 1 ==> sorted[j].id != after.value.n
    ensures after.Some? && Truthy(after.value) && p == 0 ==>
      forall j :: 0 <= j < |sorted| ==> sorted[j].id != after.value.n
  {
    match after
    case Some(Int(a)) => if a != 0 then PositionAfter(sorted, a) else 0
    case _ => 0
  }

  /** `sorted.findIndex((c) => c.id === id) + 1`: one past the first record with that id, or 0. */
  function PositionAfter(sorted: seq<CustomerWithId>, id: int): (p: nat)
    ensures p <= |sorted|
    ensures p > 0 ==> sorted[p - 1].id == id && forall j :: 0 <= j < p - 1 ==> sorted[j].id != id
    ensures p == 0 ==> forall j :: 0 <= j < |sorted| ==> sorted[j].id != id
  {
    FindIndex(sorted, (c: CustomerWithId) => c.id == id) + 1
  }

  /**
   * The cursor as evidently intended: any numeric cursor, 0 included,
   * resumes after the record with that id.
   */
  function ResumePosition(sorted: seq<CustomerWithId>, after: Option<Num>): (p: nat)
    ensures p <= |sorted|
    ensures after.None? || after == Some(NaN) ==> p == 0
    ensures after.Some? && after.value.Int? && p > 0 ==>
      sorted[p - 1].id == after.value.n && forall j :: 0 <= j < p - 1 ==> sorted[j].id != after.value.n
    ensures after.Some? && after.value.Int? && p == 0 ==>
      forall j :: 0 <= j < |sorted| ==> sorted[j].id != after.value.n
  {
    match after
    case Some(Int(a)) => PositionAfter(sorted, a)
    case _ => 0
  }

  /**
   * `sorted.slice(p, p + limit)` from a position within `sorted`: for a
   * positive limit, the next `limit` records or as many as remain; for any
   * limit, a run of records starting at `p`.
   */
  function PageAt(sorted: seq<CustomerWithId>, p: nat, limit: int): (page: seq<CustomerWithId>)
    requires p <= |sorted|
    ensures limit > 0 ==> page == sorted[p..if p + limit <= |sorted| then p + limit else |sorted|]
    ensures limit > 0 ==> |page| <= limit
    ensures 0 <= p + limit <= p ==> page == []
    ensures p + limit < 0 ==> page == if p < |sorted| + p + limit then sorted[p..|sorted| + p + limit] else []
    ensures p + |page| <= |sorted| && page == sorted[p..p + |page|]
    ensures forall r :: r in page ==> r in sorted
    ensures NoDuplicates(sorted) ==> NoDuplicates(page)
  {
    var page := Slice(sorted, p, p + limit);
    assert page == [] || exists i, j :: 0 <= i <= j <= |sorted| && page == sorted[i..j];
    page
  }

  /** No record of `a` is also in `b`. */
  ghost predicate Disjoint(a: seq<CustomerWithId>, b: seq<CustomerWithId>)
  {
    forall r :: r in a ==> r !in b
  }

  /** No two records of `s` carry the same id. */
  ghost predicate DistinctIds(s: seq<CustomerWithId>)
  {
    forall i, j :: 0 <= i < j < |s| ==> s[i].id != s[j].id
  }

  /**
   * As written, a cursor naming the record at position `end - 1` resumes at
   * `end`, provided that record's id is not 0.
   */
  lemma CursorAdvances(sorted: seq<CustomerWithId>, end: nat)
    requires DistinctIds(sorted)
    requires 0 < end <= |sorted| && sorted[end - 1].id != 0
    ensures AfterPosition(sorted, Some(Int(sorted[end - 1].id))) == end
  {
  }

  /** Two windows of a duplicate-free sequence that do not overlap share no element. */
  lemma WindowsDisjoint<T>(s: seq<T>, a: nat, b: nat, c: nat, d: nat)
    requires NoDuplicates(s)
    requires a <= b <= c <= d <= |s|
    ensures forall x :: x in s[a..b] ==> x !in s[c..d]
  {
    forall x | x in s[a..b]
      ensures x !in s[c..d]
    {
      var i :| a <= i < b && s[i] == x;
    }
  }

  /**
   * In a sequence of distinct records, the page after a non-empty page whose
   * last id is not 0, taken with that id as the cursor, starts where the
   * page ended and shares no record with it.
   */
  lemma PagesFollow(sorted: seq<CustomerWithId>, p: nat, limit: int, page: seq<CustomerWithId>)
    requires NoDuplicates(sorted) && DistinctIds(sorted) && p <= |sorted|
    requires page == PageAt(sorted, p, limit)
    requires |page| > 0 && page[|page| - 1].id != 0
    ensures p + |page| <= |sorted|
    ensures AfterPosition(sorted, Some(Int(page[|page| - 1].id))) == p + |page|
    ensures Disjoint(page, PageAt(sorted, p + |page|, limit))
  {
    var end := p + |page|;
    assert page[|page| - 1] == sorted[end - 1];
    CursorAdvances(sorted, end);
    var next := PageAt(sorted, end, limit);
    WindowsDisjoint(sorted, p, end, end, end + |next|);
  }

  /** `PagesFollow` for the corrected cursor, with no exception for id 0. */
  lemma ResumedPagesFollow(sorted: seq<CustomerWithId>, p: nat, limit: int, page: seq<CustomerWithId>)
    requires NoDuplicates(sorted) && DistinctIds(sorted) && p <= |sorted|
    requires page == PageAt(sorted, p, limit)
    requires |page| > 0
    ensures p + |page| <= |sorted|
    ensures ResumePosition(sorted, Some(Int(page[|page| - 1].id))) == p + |page|
    ensures Disjoint(page, PageAt(sorted, p + |page|, limit))
  {
    var end := p + |page|;
    assert page[|page| - 1] == sorted[end - 1];
    ResumedPageFollows(sorted, p, end);
    var next := PageAt(sorted, end, limit);
    WindowsDisjoint(sorted, p, end, end, end + |next|);
  }

  /** The page `search` takes from a ranking: `limit` records from the position the cursor gives. */
  function PageAfter(sorted: seq<CustomerWithId>, after: Option<Num>, limit: int): seq<CustomerWithId>
  {
    PageAt(sorted, AfterPosition(sorted, after), limit)
  }

  /** The same with the corrected cursor. */
  function ResumedPageAfter(sorted: seq<CustomerWithId>, after: Option<Num>, limit: int): seq<CustomerWithId>
  {
    PageAt(sorted, ResumePosition(sorted, after), limit)
  }

  /**
   * In a ranking of distinct records, the page taken with the id of the
   * last record of a page as the cursor is the window that starts where
   * that page ended, and shares no record with it: unless that id is 0.
   */
  lemma PageAfterFollows(sorted: seq<CustomerWithId>, after: Option<Num>, limit: int, page: seq<CustomerWithId>)
    requires NoDuplicates(sorted) && DistinctIds(sorted)
    requires page == PageAfter(sorted, after, limit)
    requires |page| > 0 && page[|page| - 1].id != 0
    ensures AfterPosition(sorted, after) + |page| <= |sorted|
    ensures PageAfter(sorted, Some(Int(page[|page| - 1].id)), limit) == PageAt(sorted, AfterPosition(sorted, after) + |page|, limit)
    ensures Disjoint(page, PageAfter(sorted, Some(Int(page[|page| - 1].id)), limit))
  {
    PagesFollow(sorted, AfterPosition(sorted, after), limit, page);
  }

  /** `PageAfterFollows` for the corrected cursor, with no exception for id 0. */
  lemma ResumedPageAfterFollows(sorted: seq<CustomerWithId>, after: Option<Num>, limit: int, page: seq<CustomerWithId>)
    requires NoDuplicates(sorted) && DistinctIds(sorted)
    requires page == ResumedPageAfter(sorted, after, limit)
    requires |page| > 0
    ensures ResumePosition(sorted, after) + |page| <= |sorted|
    ensures ResumedPageAfter(sorted, Some(Int(page[|page| - 1].id)), limit) == PageAt(sorted, ResumePosition(sorted, after) + |page|, limit)
    ensures Disjoint(page, ResumedPageAfter(sorted, Some(Int(page[|page| - 1].id)), limit))
  {
    ResumedPagesFollow(sorted, ResumePosition(sorted, after), limit, page);
  }

  /** Both cursors give the same page for every cursor except 0. */
  lemma ResumedPageAfterAgrees(sorted: seq<CustomerWithId>, after: Option<Num>, limit: int)
    requires after != Some(Int(0))
    ensures ResumedPageAfter(sorted, after, limit) == PageAfter(sorted, after, limit)
  {
  }

  /**
   * Taking the page after the last record of a page, with the corrected
   * cursor, continues exactly where that page ended: consecutive pages
   * never overlap.
   */
  lemma ResumedPageFollows(sorted: seq<CustomerWithId>, start: nat, end: nat)
    requires DistinctIds(sorted)
    requires start < end <= |sorted|
    ensures ResumePosition(sorted, Some(Int(sorted[end - 1].id))) == end
  {
  }

  /**
   * The cursor as written sends the page after a page that ends with
   * customer 0 back to the first position: here the first page is
   * customers 1 and 0, and the "next" page starts with customer 1 again.
   */
  lemma ZeroCursorRestartsPaging(a: Customer, b: Customer, c: Customer)
    ensures var sorted := [CustomerWithId(1, a), CustomerWithId(0, b), CustomerWithId(2, c)];
      var first := Slice(sorted, AfterPosition(sorted, None), AfterPosition(sorted, None) + 2);
      var next := Slice(sorted, AfterPosition(sorted, Some(Int(first[|first| - 1].id))),
                        AfterPosition(sorted, Some(Int(first[|first| - 1].id))) + 2);
      first == sorted[..2] && next == first
  {
  }

  /** The message for a missing field, such as "First name is required". */
  function RequiredMessage(description: string): (message: string)
    ensures |message| == |description| + 12
    ensures message[..|description|] == description && message[|description|..] == " is required"
  {
    description + " is required"
  }

  /** The message for a value another record already has, such as "Phone number already exists in the system". */
  function ExistsMessage(description: string): (message: string)
    ensures |message| == |description| + 29
    ensures message[..|description|] == description && message[|description|..] == " already exists in the system"
  {
    description + " already exists in the system"
  }

  class Customers {
    var customers: map<int, CustomerWithId>
    var nextId: int

    /** Ids are handed out 0, 1, 2, ... and never reused; each record knows its own id. */
    ghost predicate Valid()
      reads this
    {
      && 0 <= nextId
      && (forall k :: k in customers <==> 0 <= k < nextId)
      && (forall k :: k in customers ==> customers[k].id == k)
    }

    /** An empty store, to which the initial customers are added in order, without validation. */
    constructor (initialCustomers: seq<Customer>)
      ensures Valid()
      ensures nextId == |initialCustomers|
      ensures forall i :: 0 <= i < |initialCustomers| ==> customers[i] == CustomerWithId(i, initialCustomers[i])
    {
      customers := map[];
      nextId := 0;
      new;
      var i := 0;
      while i < |initialCustomers|
        invariant 0 <= i <= |initialCustomers|
        invariant Valid() && nextId == i
        invariant forall j :: 0 <= j < i ==> customers[j] == CustomerWithId(j, initialCustomers[j])
      {
        var _ := Add(initialCustomers[i]);
        i := i + 1;
      }
    }

    /** Stores the customer under the next id, whatever its contents. */
    method Add(customer: Customer) returns (customerWithId: CustomerWithId)
      requires Valid()
      modifies this
      ensures Valid()
      ensures customerWithId == CustomerWithId(old(nextId), customer)
      ensures old(nextId) !in old(customers)
      ensures customers == old(customers)[old(nextId) := customerWithId]
      ensures nextId == old(nextId) + 1
    {
      customerWithId := CustomerWithId(nextId, customer);
      nextId := nextId + 1;
      customers := customers[customerWithId.id := customerWithId];
    }

    /** A copy of the store. */
    method All() returns (all: map<int, CustomerWithId>)
      ensures all == customers
    {
      all := map k | k in customers :: customers[k];
    }

    /** Some stored record has `value` (possibly `undefined`) in `field`. */
    ghost predicate InUse(field: Field, value: Option<string>)
      reads this
    {
      exists r :: r in customers.Values && r.customer.Get(field) == value
    }

    /** Customers that `errors` reports nothing about. */
    ghost predicate Acceptable(customer: Customer)
      reads this
    {
      && !IsMissing(customer.firstName)
      && !IsMissing(customer.lastName)
      && !IsMissing(customer.phoneNumber)
      && !InUse(PhoneNumber, customer.phoneNumber)
    }

    /**
     * The messages `errors` gives: one per missing field, and for the phone
     * number the "already exists" message, which replaces "is required".
     */
    ghost predicate ReportsErrors(customer: Customer, errors: map<Field, string>)
      reads this
    {
      && (FirstName in errors <==> IsMissing(customer.firstName))
      && (FirstName in errors ==> errors[FirstName] == RequiredMessage("First name"))
      && (LastName in errors <==> IsMissing(customer.lastName))
      && (LastName in errors ==> errors[LastName] == RequiredMessage("Last name"))
      && (PhoneNumber in errors <==> IsMissing(customer.phoneNumber) || InUse(PhoneNumber, customer.phoneNumber))
      && (PhoneNumber in errors ==>
            errors[PhoneNumber] ==
              (if InUse(PhoneNumber, customer.phoneNumber) then ExistsMessage("Phone number")
               else RequiredMessage("Phone number")))
    }

    /** `{ [field]: description + " is required" }` when the field is missing, else `{}`. */
    function RequiredValidation(customer: Customer, field: Field, description: string): (errors: map<Field, string>)
      ensures errors.Keys <= {field}
      ensures field in errors <==> IsMissing(customer.Get(field))
      ensures field in errors ==> errors[field] == RequiredMessage(description)
    {
      if IsMissing(customer.Get(field)) then map[field := RequiredMessage(description)] else map[]
    }

    /** `{ [field]: description + " already exists in the system" }` when a stored record has that value, else `{}`. */
    function UniqueValidation(field: Field, fieldValue: Option<string>, description: string): (errors: map<Field, string>)
      reads this
      ensures errors.Keys <= {field}
      ensures field in errors <==> InUse(field, fieldValue)
      ensures field in errors ==> errors[field] == ExistsMessage(description)
    {
      if exists k :: k in customers && customers[k].customer.Get(field) == fieldValue then
        map[field := ExistsMessage(description)]
      else
        map[]
    }

    lemma ReportedErrorsEmpty(customer: Customer, errors: map<Field, string>)
      requires ReportsErrors(customer, errors)
      ensures errors == map[] <==> Acceptable(customer)
    {
      if errors != map[] {
        var f :| f in errors;
        assert !Acceptable(customer) by {
          match f
          case FirstName =>
          case LastName =>
          case PhoneNumber =>
        }
      } else {
        assert FirstName !in errors && LastName !in errors && PhoneNumber !in errors;
      }
    }

    /**
     * `Object.assign({}, first, last, phone, unique)` when each part holds at
     * most its own field: the first and last name entries come through
     * unchanged, and the phone number entry is `unique`'s when it has one.
     */
    lemma MergedErrors(first: map<Field, string>, last: map<Field, string>,
                       phone: map<Field, string>, unique: map<Field, string>)
      requires first.Keys <= {FirstName} && last.Keys <= {LastName}
      requires phone.Keys <= {PhoneNumber} && unique.Keys <= {PhoneNumber}
      ensures FirstName in map[] + first + last + phone + unique <==> FirstName in first
      ensures FirstName in first ==> (map[] + first + last + phone + unique)[FirstName] == first[FirstName]
      ensures LastName in map[] + first + last + phone + unique <==> LastName in last
      ensures LastName in last ==> (map[] + first + last + phone + unique)[LastName] == last[LastName]
      ensures PhoneNumber in map[] + first + last + phone + unique <==> PhoneNumber in phone || PhoneNumber in unique
      ensures PhoneNumber in unique ==> (map[] + first + last + phone + unique)[PhoneNumber] == unique[PhoneNumber]
      ensures PhoneNumber in phone && PhoneNumber !in unique ==> (map[] + first + last + phone + unique)[PhoneNumber] == phone[PhoneNumber]
    {
    }

    /** Each validation in turn, later results overriding earlier ones per field (`Object.assign`). */
    method Errors(customer: Customer) returns (errors: map<Field, string>)
      ensures ReportsErrors(customer, errors)
      ensures errors == map[] <==> Acceptable(customer)
    {
      var first := RequiredValidation(customer, FirstName, "First name");
      var last := RequiredValidation(customer, LastName, "Last name");
      var phone := RequiredValidation(customer, PhoneNumber, "Phone number");
      var unique := UniqueValidation(PhoneNumber, customer.phoneNumber, "Phone number");
      errors := map[] + first + last + phone + unique;
      MergedErrors(first, last, phone, unique);
      ReportedErrorsEmpty(customer, errors);
    }

    /** `Object.keys(this.errors(customer)).length === 0`. */
    method IsValid(customer: Customer) returns (valid: bool)
      ensures valid <==> Acceptable(customer)
    {
      var errors := Errors(customer);
      valid := |errors.Keys| == 0;
    }

    /** The ids, from ascending position `from` on, of the records matching `term`. */
    function MatchingFrom(term: string, from: int): (ids: seq<int>)
      reads this
      requires Valid() && 0 <= from
      decreases nextId - from
      ensures forall i :: 0 <= i < |ids| ==> from <= ids[i] < nextId
      ensures forall i, j :: 0 <= i < j < |ids| ==> ids[i] < ids[j]
      ensures forall k :: k in ids <==> from <= k && k in customers && MatchesTerm(customers[k], term)
    {
      if from >= nextId then []
      else (if MatchesTerm(customers[from], term) then [from] else []) + MatchingFrom(term, from + 1)
    }

    /**
     * `Object.keys(this.customers).filter(...)`: exactly the ids of the
     * records `term` is a case-insensitive prefix of a name or phone number
     * of, in ascending order.
     */
    function SearchForTerm(term: string): (ids: seq<int>)
      reads this
      requires Valid()
      ensures forall i, j :: 0 <= i < j < |ids| ==> ids[i] < ids[j]
      ensures forall k :: k in ids <==> k in customers && MatchesTerm(customers[k], term)
    {
      MatchingFrom(term, 0)
    }

    /**
     * `searchTerms.flatMap(searchForTerm).unique()`: each matching id once.
     * Ids matched by an earlier term come first; ids whose first matching
     * term is the same are in ascending order.
     */
    function MatchingIds(terms: seq<string>): (ids: seq<int>)
      reads this
      requires Valid()
      ensures NoDuplicates(ids)
      ensures forall k :: k in ids <==> k in customers && exists t :: t in terms && MatchesTerm(customers[k], t)
      ensures forall i :: 0 <= i < |ids| ==> ids[i] in customers
      ensures forall i, j :: 0 <= i < j < |ids| ==>
        FirstMatch(customers[ids[i]], terms) < FirstMatch(customers[ids[j]], terms)
        || (FirstMatch(customers[ids[i]], terms) == FirstMatch(customers[ids[j]], terms) && ids[i] < ids[j])
    {
      var search := (t: string) requires Valid() reads this => SearchForTerm(t);
      var flat := FlatMap(terms, search);
      UniqueInTermOrder(terms, search, flat, Unique(flat));
      Unique(flat)
    }

    /**
     * Keeping each id of the concatenated per-term results at its first
     * appearance orders the ids by first matching term, then ascending.
     */
    lemma UniqueInTermOrder(terms: seq<string>, search: string ~> seq<int>, flat: seq<int>, ids: seq<int>)
      requires Valid()
      requires forall t :: search.requires(t) && search(t) == SearchForTerm(t)
      requires flat == FlatMap(terms, search) && ids == Unique(flat)
      ensures forall i :: 0 <= i < |ids| ==> ids[i] in customers
      ensures forall i, j :: 0 <= i < j < |ids| ==>
        FirstMatch(customers[ids[i]], terms) < FirstMatch(customers[ids[j]], terms)
        || (FirstMatch(customers[ids[i]], terms) == FirstMatch(customers[ids[j]], terms) && ids[i] < ids[j])
    {
      assert forall i :: 0 <= i < |ids| ==> ids[i] in flat;
      forall i, j | 0 <= i < j < |ids|
        ensures FirstMatch(customers[ids[i]], terms) < FirstMatch(customers[ids[j]], terms)
                || (FirstMatch(customers[ids[i]], terms) == FirstMatch(customers[ids[j]], terms) && ids[i] < ids[j])
      {
        IdsInTermOrder(terms, search, flat, ids[i], ids[j]);
      }
    }

    /** Of two ids of the concatenated results, the one that appears first has the earlier first term, or the smaller id. */
    lemma IdsInTermOrder(terms: seq<string>, search: string ~> seq<int>, flat: seq<int>, a: int, b: int)
      requires Valid()
      requires forall t :: search.requires(t) && search(t) == SearchForTerm(t)
      requires flat == FlatMap(terms, search)
      requires a in flat && b in flat && IndexOf(flat, a) < IndexOf(flat, b)
      ensures a in customers && b in customers
      ensures FirstMatch(customers[a], terms) < FirstMatch(customers[b], terms)
              || (FirstMatch(customers[a], terms) == FirstMatch(customers[b], terms) && a < b)
    {
      var ta := FirstInBlocks(terms, search, flat, a);
      var tb := FirstInBlocks(terms, search, flat, b);
      FlatMapFirstOrder(terms, search, a, ta, b, tb);
      if ta == tb {
        var block := SearchForTerm(terms[ta]);
        assert block[IndexOf(block, a)] == a && block[IndexOf(block, b)] == b;
      }
    }

    /** The first matching term of an id in the concatenated results is the first block holding it. */
    lemma FirstInBlocks(terms: seq<string>, search: string ~> seq<int>, flat: seq<int>, k: int) returns (t: nat)
      requires Valid()
      requires forall t :: search.requires(t) && search(t) == SearchForTerm(t)
      requires flat == FlatMap(terms, search)
      requires k in flat
      ensures k in customers
      ensures t == FirstMatch(customers[k], terms)
      ensures t < |terms| && k in search(terms[t]) && forall i :: 0 <= i < t ==> k !in search(terms[i])
    {
      var i :| 0 <= i < |terms| && k in search(terms[i]);
      t := FirstMatch(customers[k], terms);
      assert t <= i;
    }

    /** The records of `MatchingIds`, in that order. */
    function Matching(terms: seq<string>): (records: seq<CustomerWithId>)
      reads this
      requires Valid()
      ensures |records| == |MatchingIds(terms)|
      ensures forall i :: 0 <= i < |records| ==> records[i] == customers[MatchingIds(terms)[i]]
      ensures NoDuplicates(records) && DistinctIds(records)
      ensures forall r :: r in records <==> r.id in customers && customers[r.id] == r && exists t :: t in terms && MatchesTerm(r, t)
    {
      var ids := MatchingIds(terms);
      LookupOfKeys(customers, ids);
      Lookup(customers, ids)
    }

    /**
     * The comparator calls `localeCompare` on the `orderBy` property of its
     * first argument, which throws unless that property is a string; with
     * two or more records to sort, a record lacking it is reported as a throw.
     */
    predicate SortThrows(terms: seq<string>, orderBy: string): (b: bool)
      reads this
      requires Valid()
      ensures b ==> |Matching(terms)| >= 2
      ensures !IsTextField(orderBy) ==> (b <==> |Matching(terms)| >= 2)
    {
      assert |Matching(terms)| >= 2 ==> Matching(terms)[0] in Matching(terms);
      |Matching(terms)| >= 2 && exists r :: r in Matching(terms) && TextProperty(r, orderBy).None?
    }

    /**
     * The matching records sorted by the `orderBy` property, ascending or
     * descending; records with equal keys stay in their first-appearance order.
     */
    function Ranked(terms: seq<string>, orderBy: string, descending: bool): (sorted: seq<CustomerWithId>)
      reads this
      requires Valid()
      ensures NoDuplicates(sorted) && DistinctIds(sorted)
    {
      var matching := Matching(terms);
      var sorted := SortByKey(matching, KeyOf(orderBy), descending);
      DistinctPermutation(matching, sorted);
      assert forall r :: r in sorted <==> r in multiset(sorted);
      assert forall r :: r in matching <==> r in multiset(matching);
      assert DistinctIds(sorted) by {
        forall i, j | 0 <= i < j < |sorted| ensures sorted[i].id != sorted[j].id {
          assert sorted[i] in matching && sorted[j] in matching;
        }
      }
      sorted
    }

    /**
     * The ranking holds exactly the matching records, ordered by the key
     * (ascending, or descending), and records with equal keys keep their
     * first-appearance order: the sort is stable.
     */
    lemma RankedOrder(terms: seq<string>, orderBy: string, descending: bool)
      requires Valid()
      ensures forall r :: r in Ranked(terms, orderBy, descending) <==> r in Matching(terms)
      ensures |Ranked(terms, orderBy, descending)| == |Matching(terms)|
      ensures SortedBy(Ranked(terms, orderBy, descending), KeyOf(orderBy), descending)
      ensures forall k :: Ties(Ranked(terms, orderBy, descending), KeyOf(orderBy), k) == Ties(Matching(terms), KeyOf(orderBy), k)
    {
      var matching := Matching(terms);
      var sorted := SortByKey(matching, KeyOf(orderBy), descending);
      assert Ranked(terms, orderBy, descending) == sorted;
      assert forall r :: r in sorted <==> r in multiset(sorted);
      assert forall r :: r in matching <==> r in multiset(matching);
    }

    /**
     * `search`: defaults applied, matching records sorted, then the page of
     * at most `limit` records that starts after the cursor.
     */
    function Search(query: SearchQuery): (page: Result<seq<CustomerWithId>, JsError>)
      reads this
      requires Valid()
      ensures page.Err? <==> SortThrows(EffectiveTerms(query.searchTerms), EffectiveOrderBy(query.orderBy))
      ensures page.Err? ==> page.error == TypeError
      ensures page.Ok? ==>
        page.value == PageAfter(Ranked(EffectiveTerms(query.searchTerms), EffectiveOrderBy(query.orderBy), Descending(query.orderDirection)),
                                query.after, EffectiveLimit(query.limit))
    {
      var limit := EffectiveLimit(query.limit);
      var orderBy := EffectiveOrderBy(query.orderBy);
      var terms := EffectiveTerms(query.searchTerms);
      if SortThrows(terms, orderBy) then Err(TypeError)
      else Ok(PageAfter(Ranked(terms, orderBy, Descending(query.orderDirection)), query.after, limit))
    }

    /**
     * Every record of a page is a stored record that one of the terms
     * matches, no record appears twice, and a positive limit bounds the page.
     */
    lemma PageHoldsStoredMatches(query: SearchQuery)
      requires Valid()
      requires Search(query).Ok?
      ensures forall r :: r in Search(query).value ==>
        r.id in customers && customers[r.id] == r && exists t :: t in EffectiveTerms(query.searchTerms) && MatchesTerm(r, t)
      ensures NoDuplicates(Search(query).value)
      ensures EffectiveLimit(query.limit) > 0 ==> |Search(query).value| <= EffectiveLimit(query.limit)
    {
      var sorted := Ranked(EffectiveTerms(query.searchTerms), EffectiveOrderBy(query.orderBy), Descending(query.orderDirection));
      RankedOrder(EffectiveTerms(query.searchTerms), EffectiveOrderBy(query.orderBy), Descending(query.orderDirection));
      assert forall r :: r in Search(query).value ==> r in sorted;
    }

    /**
     * Without `searchTerms` the single term "" is searched, and it is a
     * prefix of every text: every stored record matches.
     */
    lemma DefaultTermMatchesEveryone()
      requires Valid()
      ensures forall k :: k in customers ==> customers[k] in Matching(EffectiveTerms(None))
    {
      forall k | k in customers
        ensures customers[k] in Matching(EffectiveTerms(None))
      {
        assert MatchesTerm(customers[k], "");
      }
    }

    /** An explicit empty list of terms finds nothing, so the page is empty. */
    lemma EmptyTermListFindsNothing(query: SearchQuery)
      requires Valid()
      requires query.searchTerms == Some([])
      ensures Search(query) == Ok([])
    {
      assert Matching([]) == [];
    }

    /**
     * Asking again with the id of the last record of a page as the cursor
     * gives exactly the records right after that page, none of them
     * repeated; this holds for every cursor id except 0.
     */
    lemma NextPageFollows(query: SearchQuery, page: seq<CustomerWithId>)
      requires Valid()
      requires Search(query) == Ok(page)
      requires |page| > 0 && page[|page| - 1].id != 0
      ensures Search(NextQuery(query, page)).Ok?
      ensures Disjoint(page, Search(NextQuery(query, page)).value)
    {
      var sorted := Ranked(EffectiveTerms(query.searchTerms), EffectiveOrderBy(query.orderBy), Descending(query.orderDirection));
      PageAfterFollows(sorted, query.after, EffectiveLimit(query.limit), page);
      OtherCursor(query, NextQuery(query, page));
    }

    /** Only the cursor differs: the same ranking, paged from another cursor. */
    lemma OtherCursor(query: SearchQuery, other: SearchQuery)
      requires Valid()
      requires Search(query).Ok?
      requires other.(after := query.after) == query
      ensures Search(other).Ok?
      ensures Search(other).value == PageAfter(Ranked(EffectiveTerms(query.searchTerms), EffectiveOrderBy(query.orderBy), Descending(query.orderDirection)),
                                              other.after, EffectiveLimit(query.limit))
    {
    }

    /**
     * `search` with the corrected cursor of `ResumePosition`: the same
     * defaults, matches, ranking and page size, only the page start differs.
     */
    function ResumedSearch(query: SearchQuery): (page: Result<seq<CustomerWithId>, JsError>)
      reads this
      requires Valid()
      ensures page.Err? <==> SortThrows(EffectiveTerms(query.searchTerms), EffectiveOrderBy(query.orderBy))
      ensures page.Err? ==> page.error == TypeError
      ensures page.Ok? ==>
        page.value == ResumedPageAfter(Ranked(EffectiveTerms(query.searchTerms), EffectiveOrderBy(query.orderBy), Descending(query.orderDirection)),
                                       query.after, EffectiveLimit(query.limit))
    {
      var limit := EffectiveLimit(query.limit);
      var orderBy := EffectiveOrderBy(query.orderBy);
      var terms := EffectiveTerms(query.searchTerms);
      if SortThrows(terms, orderBy) then Err(TypeError)
      else Ok(ResumedPageAfter(Ranked(terms, orderBy, Descending(query.orderDirection)), query.after, limit))
    }

    /** The correction changes nothing unless the cursor is 0. */
    lemma ResumedAgrees(query: SearchQuery)
      requires Valid()
      requires query.after != Some(Int(0))
      ensures ResumedSearch(query) == Search(query)
    {
      var sorted := Ranked(EffectiveTerms(query.searchTerms), EffectiveOrderBy(query.orderBy), Descending(query.orderDirection));
      ResumedPageAfterAgrees(sorted, query.after, EffectiveLimit(query.limit));
    }

    /**
     * With the corrected cursor, asking again with the id of the last
     * record of a page gives the records right after that page, none of
     * them repeated, whatever that id is.
     */
    lemma ResumedNextPageFollows(query: SearchQuery, page: seq<CustomerWithId>)
      requires Valid()
      requires ResumedSearch(query) == Ok(page)
      requires |page| > 0
      ensures ResumedSearch(NextQuery(query, page)).Ok?
      ensures Disjoint(page, ResumedSearch(NextQuery(query, page)).value)
    {
      var sorted := Ranked(EffectiveTerms(query.searchTerms), EffectiveOrderBy(query.orderBy), Descending(query.orderDirection));
      ResumedPageAfterFollows(sorted, query.after, EffectiveLimit(query.limit), page);
      ResumedOtherCursor(query, NextQuery(query, page));
    }

    /** `OtherCursor` for the corrected search: the same ranking, paged from another cursor. */
    lemma ResumedOtherCursor(query: SearchQuery, other: SearchQuery)
      requires Valid()
      requires ResumedSearch(query).Ok?
      requires other.(after := query.after) == query
      ensures ResumedSearch(other).Ok?
      ensures ResumedSearch(other).value == ResumedPageAfter(Ranked(EffectiveTerms(query.searchTerms), EffectiveOrderBy(query.orderBy), Descending(query.orderDirection)),
                                                            other.after, EffectiveLimit(query.limit))
    {
    }
  }
}
