/**
 * The browser's customer search (src/CustomerSearch.tsx), without its
 * rendering: the hand-rolled query-string helper, and the stack of page
 * cursors that the Next and Previous buttons push and pop. The page the
 * server returns is JSON, so the ids on it, and hence the cursors, are
 * numbers.
 */
module CustomerSearch {
  import opened Wrappers
  import opened JsString
  import opened JsNumber
  import opened JsArray
  import QueryString
  import opened CustomerDirectory
  import App

  /**
   * The local `searchParams(after, searchTerm)`: a pair for each non-empty
   * argument, `after` first, written verbatim with no encoding.
   */
  method SearchParams(after: string, searchTerm: string) returns (query: string)
    ensures after == "" && searchTerm == "" ==> query == ""
    ensures after != "" && searchTerm == "" ==> query == "?after=" + after
    ensures after == "" && searchTerm != "" ==> query == "?searchTerm=" + searchTerm
    ensures after != "" && searchTerm != "" ==> query == "?after=" + after + "&searchTerm=" + searchTerm
    ensures QueryString.AllUnreserved(after) && QueryString.AllUnreserved(searchTerm) ==>
      query == QueryString.SearchParams([("after", Some(after)), ("searchTerm", Some(searchTerm))])
  {
    var pairs: seq<string> := [];
    if after != "" {
      pairs := pairs + ["after=" + after];
    }
    if searchTerm != "" {
      pairs := pairs + ["searchTerm=" + searchTerm];
    }
    if |pairs| > 0 {
      query := "?" + Join(pairs, "&");
    } else {
      query := "";
    }
    HandRolledShape(after, searchTerm, pairs, query);
    if QueryString.AllUnreserved(after) && QueryString.AllUnreserved(searchTerm) {
      EncodedCases(after, searchTerm);
    }
  }

  /** The four texts the pushed pairs join to. */
  lemma HandRolledShape(after: string, searchTerm: string, pairs: seq<string>, query: string)
    requires pairs == (if after != "" then ["after=" + after] else []) + (if searchTerm != "" then ["searchTerm=" + searchTerm] else [])
    requires query == if |pairs| > 0 then "?" + Join(pairs, "&") else ""
    ensures after == "" && searchTerm == "" ==> query == ""
    ensures after != "" && searchTerm == "" ==> query == "?after=" + after
    ensures after == "" && searchTerm != "" ==> query == "?searchTerm=" + searchTerm
    ensures after != "" && searchTerm != "" ==> query == "?after=" + after + "&searchTerm=" + searchTerm
  {
    Regrouped(after, searchTerm);
    if after != "" && searchTerm != "" {
      assert pairs == ["after=" + after, "searchTerm=" + searchTerm];
      JoinOfTwo("after=" + after, "searchTerm=" + searchTerm);
    } else if after != "" {
      assert pairs == ["after=" + after];
      JoinOfOne("after=" + after);
    } else if searchTerm != "" {
      assert pairs == ["searchTerm=" + searchTerm];
      JoinOfOne("searchTerm=" + searchTerm);
    }
  }

  /**
   * On text of unreserved characters only, the generic encoding query
   * builder writes the same four shapes as the hand-rolled one.
   */
  lemma EncodedCases(after: string, searchTerm: string)
    requires QueryString.AllUnreserved(after) && QueryString.AllUnreserved(searchTerm)
    ensures var query := QueryString.SearchParams([("after", Some(after)), ("searchTerm", Some(searchTerm))]);
      && (after == "" && searchTerm == "" ==> query == "")
      && (after != "" && searchTerm == "" ==> query == "?after=" + after)
      && (after == "" && searchTerm != "" ==> query == "?searchTerm=" + searchTerm)
      && (after != "" && searchTerm != "" ==> query == "?after=" + after + "&searchTerm=" + searchTerm)
  {
    KeyNamesUnreserved();
    KeptBoth(after, searchTerm);
    Regrouped(after, searchTerm);
    if after != "" && searchTerm != "" {
      EncodedBoth(after, searchTerm);
    } else if after != "" {
      EncodedOne("after", after, [("after", Some(after)), ("searchTerm", Some(searchTerm))]);
    } else if searchTerm != "" {
      EncodedOne("searchTerm", searchTerm, [("after", Some(after)), ("searchTerm", Some(searchTerm))]);
    } else {
      QueryString.SearchParamsOfPairs([("after", Some(after)), ("searchTerm", Some(searchTerm))]);
    }
  }

  lemma EncodedOne(key: string, value: string, entries: seq<(string, Option<string>)>)
    requires QueryString.AllUnreserved(key) && QueryString.AllUnreserved(value)
    requires QueryString.Kept(entries) == [(key, value)]
    ensures QueryString.SearchParams(entries) == "?" + (key + "=" + value)
  {
    QueryString.SearchParamsOfPairs(entries);
    PairsOfOne((key, value));
    UnreservedPair(key, value);
  }

  lemma EncodedBoth(after: string, searchTerm: string)
    requires QueryString.AllUnreserved(after) && QueryString.AllUnreserved(searchTerm)
    requires QueryString.AllUnreserved("after") && QueryString.AllUnreserved("searchTerm")
    requires QueryString.Kept([("after", Some(after)), ("searchTerm", Some(searchTerm))]) == [("after", after), ("searchTerm", searchTerm)]
    ensures QueryString.SearchParams([("after", Some(after)), ("searchTerm", Some(searchTerm))])
      == "?" + (("after" + "=" + after) + "&" + ("searchTerm" + "=" + searchTerm))
  {
    QueryString.SearchParamsOfPairs([("after", Some(after)), ("searchTerm", Some(searchTerm))]);
    PairsOfTwo(("after", after), ("searchTerm", searchTerm));
    UnreservedPair("after", after);
    UnreservedPair("searchTerm", searchTerm);
    JoinOfTwo("after" + "=" + after, "searchTerm" + "=" + searchTerm);
  }

  /** The query texts of both builders, regrouped into the four shapes. */
  lemma Regrouped(after: string, searchTerm: string)
    ensures "?" + ("after" + "=" + after) == "?" + ("after=" + after) == "?after=" + after
    ensures "?" + ("searchTerm" + "=" + searchTerm) == "?" + ("searchTerm=" + searchTerm) == "?searchTerm=" + searchTerm
    ensures "?" + (("after" + "=" + after) + "&" + ("searchTerm" + "=" + searchTerm))
      == "?" + ("after=" + after + "&" + ("searchTerm=" + searchTerm))
      == "?after=" + after + "&searchTerm=" + searchTerm
  {
    assert "after" + "=" == "after=";
    assert "searchTerm" + "=" == "searchTerm=";
  }

  /** The two key names are plain letters, which `encodeURIComponent` leaves alone. */
  lemma KeyNamesUnreserved()
    ensures QueryString.AllUnreserved("after") && QueryString.AllUnreserved("searchTerm")
  {
    forall i | 0 <= i < |"searchTerm"|
      ensures QueryString.Unreserved("searchTerm"[i])
    {
      assert 'a' <= "searchTerm"[i] <= 'z' || "searchTerm"[i] == 'T';
    }
  }

  /*
   * The next four lemmas, and `UnreservedPair` below, have empty bodies. Each
   * one unfolds a single small list, join or pair for its caller, so that the
   * larger proofs above do not have to unfold it themselves.
   */

  lemma PairsOfOne(x: (string, string))
    ensures QueryString.Pairs([x]) == [QueryString.Pair(x)]
  {
  }

  lemma PairsOfTwo(x: (string, string), y: (string, string))
    ensures QueryString.Pairs([x, y]) == [QueryString.Pair(x), QueryString.Pair(y)]
  {
  }

  lemma JoinOfOne(a: string)
    ensures Join([a], "&") == a
  {
  }

  lemma JoinOfTwo(a: string, t: string)
    ensures Join([a, t], "&") == a + "&" + t
  {
  }

  /** The filter of the generic builder on the two entries the component sends. */
  lemma KeptBoth(after: string, searchTerm: string)
    ensures QueryString.Kept([("after", Some(after)), ("searchTerm", Some(searchTerm))])
      == (if after != "" then [("after", after)] else []) + (if searchTerm != "" then [("searchTerm", searchTerm)] else [])
  {
    var first, second := [("after", Some(after))], [("searchTerm", Some(searchTerm))];
    assert [("after", Some(after)), ("searchTerm", Some(searchTerm))] == first + second;
    QueryString.KeptAppend(first, second);
    QueryString.KeptOne("after", Some(after));
    QueryString.KeptOne("searchTerm", Some(searchTerm));
  }

  /** A pair of unreserved text is written as `key=value`. */
  lemma UnreservedPair(key: string, value: string)
    requires QueryString.AllUnreserved(key) && QueryString.AllUnreserved(value)
    ensures QueryString.Pair((key, value)) == key + "=" + value
  {
  }

  /**
   * Because values go in verbatim, a search term holding `&` splits into
   * two query pairs; the encoding builder keeps it as one pair.
   */
  lemma VerbatimTermSplits()
    ensures Split(("?searchTerm=" + "a&b")[1..], '&') == ["searchTerm=a", "b"]
    ensures Split(QueryString.SearchParams([("after", Some("")), ("searchTerm", Some("a&b"))])[1..], '&')
      == [QueryString.Pair(("searchTerm", "a&b"))]
  {
    VerbatimSplit();
    EncodedSplit();
  }

  lemma VerbatimSplit()
    ensures Split(("?searchTerm=" + "a&b")[1..], '&') == ["searchTerm=a", "b"]
  {
    assert ("?searchTerm=" + "a&b")[1..] == "searchTerm=a" + ['&'] + "b";
    SplitAfterFree("searchTerm=a", '&', "b");
    SplitFree("b", '&');
  }

  lemma EncodedSplit()
    ensures Split(QueryString.SearchParams([("after", Some("")), ("searchTerm", Some("a&b"))])[1..], '&')
      == [QueryString.Pair(("searchTerm", "a&b"))]
  {
    var entries := [("after", Some("")), ("searchTerm", Some("a&b"))];
    KeptBoth("", "a&b");
    assert QueryString.Kept(entries) == [("searchTerm", "a&b")];
    PairsOfOne(("searchTerm", "a&b"));
  }

  /** `[...lastRowIds, lastId]` when the page has a last row, otherwise the stack as it was. */
  function Pushed(stack: seq<int>, page: Option<seq<CustomerWithId>>): (pushed: seq<int>)
    ensures page.None? || page.value == [] ==> pushed == stack
    ensures page.Some? && page.value != [] ==>
      |pushed| == |stack| + 1 && pushed[..|stack|] == stack && pushed[|stack|] == page.value[|page.value| - 1].id
  {
    if page.None? || page.value == [] then stack
    else stack + [page.value[|page.value| - 1].id]
  }

  /** `lastRowIds.slice(0, -1)`: the stack without its top, and the empty stack for the empty stack. */
  function Popped(stack: seq<int>): (popped: seq<int>)
    ensures stack == [] ==> popped == []
    ensures stack != [] ==> popped == stack[..|stack| - 1]
  {
    Slice(stack, 0, -1)
  }

  /** Previous after Next on a non-empty page returns to the stack there was before. */
  lemma PoppedPushed(stack: seq<int>, page: Option<seq<CustomerWithId>>)
    requires page.Some? && page.value != []
    ensures Popped(Pushed(stack, page)) == stack
  {
  }

  /** `lastRowIds[lastRowIds.length - 1] ?? ''`: the top of the stack, if any. */
  function Top(stack: seq<int>): (after: Option<int>)
    ensures after.None? <==> stack == []
    ensures after.Some? ==> after.value == stack[|stack| - 1]
  {
    if stack == [] then None else Some(stack[|stack| - 1])
  }

  /**
   * What `searchParams`' `if (after)` and `after=${after}` make of the top of
   * the stack: nothing for an empty stack and for the falsy id 0, otherwise
   * the id's decimal text, which reads back as that id.
   */
  function AfterArgument(after: Option<int>): (text: string)
    ensures text == "" <==> after.None? || after == Some(0)
    ensures text != "" ==> ParseInt(text) == Int(after.value)
  {
    if after.None? || after.value == 0 then ""
    else
      ParseIntOfIntToString(after.value);
      IntToString(after.value)
  }

  /**
   * The cursor the client pushes after receiving a page is the one the
   * server's next-page query carries: the server parses the `after`
   * text back to the id of the page's last record.
   */
  lemma CursorMatchesServerQuery(stack: seq<int>, page: seq<CustomerWithId>, query: SearchQuery)
    requires page != [] && page[|page| - 1].id != 0
    ensures var text := AfterArgument(Top(Pushed(stack, Some(page))));
      && App.IsTruthy(Some(App.Text(text)))
      && Some(ParseInt(App.AsText(App.Text(text)))) == NextQuery(query, page).after
  {
  }

  /**
   * As written, a page whose last row is customer 0 pushes the cursor 0,
   * which `if (after)` then drops: the next request carries no cursor.
   */
  lemma ZeroCursorDropped(stack: seq<int>, page: seq<CustomerWithId>)
    requires page != [] && page[|page| - 1].id == 0
    ensures AfterArgument(Top(Pushed(stack, Some(page)))) == ""
  {
  }

  /**
   * The cursor as evidently intended by the `string[]` type of
   * `lastRowIds`: the id's decimal text, which is truthy even for id 0.
   */
  function ResumedAfterArgument(after: Option<int>): (text: string)
    ensures text == "" <==> after.None?
    ensures text != "" ==> ParseInt(text) == Int(after.value)
  {
    if after.None? then ""
    else
      ParseIntOfIntToString(after.value);
      IntToString(after.value)
  }

  /** With the corrected cursor text, the next request names the last row of every non-empty page. */
  lemma ResumedCursorMatchesServerQuery(stack: seq<int>, page: seq<CustomerWithId>, query: SearchQuery)
    requires page != []
    ensures var text := ResumedAfterArgument(Top(Pushed(stack, Some(page))));
      && App.IsTruthy(Some(App.Text(text)))
      && Some(ParseInt(App.AsText(App.Text(text)))) == NextQuery(query, page).after
  {
  }

  /** The component's state cells. */
  class CustomerSearch {
    /** The page last fetched; `undefined` before the first reply. */
    var customers: Option<seq<CustomerWithId>>
    /** The cursors of the pages before the current one, the most recent last. */
    var lastRowIds: seq<int>
    var searchTerm: string

    /** The initial state: no page yet, no cursors, an empty search term. */
    constructor()
      ensures customers == None && lastRowIds == [] && searchTerm == ""
    {
      customers := None;
      lastRowIds := [];
      searchTerm := "";
    }

    /**
     * `handleNext`: push the id of the current page's last row, if there is
     * one. The last ensures spells out the early return for an undefined or
     * empty page, which `Pushed` already implies.
     */
    method HandleNext()
      modifies this
      ensures lastRowIds == Pushed(old(lastRowIds), customers)
      ensures customers == old(customers) && searchTerm == old(searchTerm)
      ensures old(customers).None? || old(customers).value == [] ==> lastRowIds == old(lastRowIds)
    {
      if customers.None? || |customers.value| == 0 {
        return;
      }
      var currentLastRowId := customers.value[|customers.value| - 1].id;
      lastRowIds := lastRowIds + [currentLastRowId];
    }

    /** `handlePrevious`: drop the most recent cursor. */
    method HandlePrevious()
      modifies this
      ensures lastRowIds == Popped(old(lastRowIds))
      ensures customers == old(customers) && searchTerm == old(searchTerm)
    {
      lastRowIds := Slice(lastRowIds, 0, -1);
    }

    /** `handleSearchTextChanged`: the cursors are kept as they are. */
    method HandleSearchTextChanged(value: string)
      modifies this
      ensures searchTerm == value
      ensures customers == old(customers) && lastRowIds == old(lastRowIds)
    {
      searchTerm := value;
    }

    /** The reply of a fetch becomes the current page. */
    method ReceivePage(page: seq<CustomerWithId>)
      modifies this
      ensures customers == Some(page)
      ensures lastRowIds == old(lastRowIds) && searchTerm == old(searchTerm)
    {
      customers := Some(page);
    }

    /**
     * The address `fetchData` requests: `/customers` with the top cursor and
     * the search term, each only when truthy.
     */
    method FetchUrl() returns (url: string)
      ensures var after := AfterArgument(Top(lastRowIds));
        && (after == "" && searchTerm == "" ==> url == "/customers")
        && (after != "" && searchTerm == "" ==> url == "/customers" + ("?after=" + after))
        && (after == "" && searchTerm != "" ==> url == "/customers" + ("?searchTerm=" + searchTerm))
        && (after != "" && searchTerm != "" ==> url == "/customers" + ("?after=" + after + "&searchTerm=" + searchTerm))
      ensures lastRowIds == [] && searchTerm == "" ==> url == "/customers"
    {
      var after := AfterArgument(Top(lastRowIds));
      var query := SearchParams(after, searchTerm);
      url := "/customers" + query;
    }
  }
}
