/**
 * The PubMed affiliation searcher: the search term is built from a list of
 * institution name variants and an optional date range, credentials are
 * checked before anything is sent, one search request is made, and the
 * output file names carry a year suffix when the range lies within one year.
 *
 * The search service is an oracle: `remote(request)` is what it answers.
 */
module PubmedSearch {
  import opened PyRuntime

  /** The upper bound of the date range when only a start date is given. */
  const OPEN_END_DATE := "3000/12/31"

  /** How many ids one search request asks for. */
  const RETMAX: nat := 100000

  // ---------------------------------------------------------------------
  // Building the search term

  /** `sep.join(parts)`. */
  function Join(sep: string, parts: seq<string>): string {
    if |parts| == 0 then ""
    else if |parts| == 1 then parts[0]
    else Join(sep, parts[..|parts| - 1]) + sep + parts[|parts| - 1]
  }

  /** Where `parts[i]` begins inside `Join(sep, parts)`. */
  function PartStart(sep: string, parts: seq<string>, i: nat): nat
    requires i <= |parts|
  {
    if i == 0 then 0 else PartStart(sep, parts, i - 1) + |parts[i - 1]| + |sep|
  }

  lemma {:induction false} PartStartOfPrefix(sep: string, parts: seq<string>, n: nat, i: nat)
    requires i <= n <= |parts|
    ensures PartStart(sep, parts[..n], i) == PartStart(sep, parts, i)
  {
    if i > 0 {
      PartStartOfPrefix(sep, parts, n, i - 1);
    }
  }

  /** The length of a join: every part, and one separator between each two. */
  lemma {:induction false} JoinLength(sep: string, parts: seq<string>)
    requires |parts| > 0
    ensures |Join(sep, parts)| == PartStart(sep, parts, |parts| - 1) + |parts[|parts| - 1]|
  {
    if |parts| > 1 {
      var init := parts[..|parts| - 1];
      JoinLength(sep, init);
      PartStartOfPrefix(sep, parts, |parts| - 1, |parts| - 2);
    }
  }

  /** Where `parts[i]` ends inside `Join(sep, parts)`. */
  function PartEnd(sep: string, parts: seq<string>, i: nat): nat
    requires i < |parts|
  {
    PartStart(sep, parts, i) + |parts[i]|
  }

  lemma SliceInFront(a: string, b: string, x: nat, y: nat)
    requires x <= y <= |a|
    ensures (a + b)[x..y] == a[x..y]
  {
  }

  lemma SliceBehind(a: string, b: string, x: nat, y: nat)
    requires |a| <= x <= y <= |a| + |b|
    ensures (a + b)[x..y] == b[x - |a|..y - |a|]
  {
  }

  /** The join of all parts is the join of all but the last, the separator, and the last. */
  lemma JoinSnoc(sep: string, parts: seq<string>)
    requires |parts| > 1
    ensures Join(sep, parts) == Join(sep, parts[..|parts| - 1]) + sep + parts[|parts| - 1]
    ensures |Join(sep, parts[..|parts| - 1])| == PartEnd(sep, parts, |parts| - 2)
  {
    var init := parts[..|parts| - 1];
    JoinLength(sep, init);
    PartStartOfPrefix(sep, parts, |parts| - 1, |parts| - 2);
  }

  /** Part i of a join sits at `PartStart(sep, parts, i)`. */
  lemma {:induction false} JoinPartText(sep: string, parts: seq<string>, i: nat)
    requires i < |parts|
    ensures PartEnd(sep, parts, i) <= |Join(sep, parts)|
    ensures Join(sep, parts)[PartStart(sep, parts, i)..PartEnd(sep, parts, i)] == parts[i]
    decreases |parts|
  {
    var n := |parts|;
    if n == 1 {
      assert Join(sep, parts) == parts[0];
    } else {
      var init := parts[..n - 1];
      var front := Join(sep, init) + sep;
      JoinSnoc(sep, parts);
      var a, b := PartStart(sep, parts, i), PartEnd(sep, parts, i);
      if i < n - 1 {
        assert a == PartStart(sep, init, i) && b == PartEnd(sep, init, i) by {
          PartStartOfPrefix(sep, parts, n - 1, i);
        }
        JoinPartText(sep, init, i);
        SliceInFront(front, parts[n - 1], a, b);
        SliceInFront(Join(sep, init), sep, a, b);
      } else {
        SliceBehind(front, parts[n - 1], |front|, |Join(sep, parts)|);
      }
    }
  }

  /** Exactly the separator stands between part i and part i + 1 of a join. */
  lemma {:induction false} JoinSepText(sep: string, parts: seq<string>, i: nat)
    requires i + 1 < |parts|
    ensures PartStart(sep, parts, i + 1) <= |Join(sep, parts)|
    ensures Join(sep, parts)[PartEnd(sep, parts, i)..PartStart(sep, parts, i + 1)] == sep
    decreases |parts|
  {
    var n := |parts|;
    var init := parts[..n - 1];
    var prev := Join(sep, init);
    var front := prev + sep;
    JoinSnoc(sep, parts);
    var b, c := PartEnd(sep, parts, i), PartStart(sep, parts, i + 1);
    if i + 1 < n - 1 {
      assert b == PartEnd(sep, init, i) && c == PartStart(sep, init, i + 1) by {
        PartStartOfPrefix(sep, parts, n - 1, i);
        PartStartOfPrefix(sep, parts, n - 1, i + 1);
      }
      JoinSepText(sep, init, i);
      SliceInFront(front, parts[n - 1], b, c);
      SliceInFront(prev, sep, b, c);
    } else {
      SliceInFront(front, parts[n - 1], b, |front|);
      SliceBehind(prev, sep, b, |front|);
    }
  }

  /**
   * The layout of a join at one part: part i sits at `PartStart(sep, parts, i)`
   * and exactly the separator stands between part i and part i + 1.
   */
  lemma JoinPart(sep: string, parts: seq<string>, i: nat)
    requires i < |parts|
    ensures PartEnd(sep, parts, i) <= |Join(sep, parts)|
    ensures Join(sep, parts)[PartStart(sep, parts, i)..PartEnd(sep, parts, i)] == parts[i]
    ensures i + 1 < |parts| ==>
      && PartStart(sep, parts, i + 1) <= |Join(sep, parts)|
      && Join(sep, parts)[PartEnd(sep, parts, i)..PartStart(sep, parts, i + 1)] == sep
  {
    JoinPartText(sep, parts, i);
    if i + 1 < |parts| {
      JoinSepText(sep, parts, i);
    }
  }

  /**
   * The layout of a join: every part in list order, each at
   * `PartStart(sep, parts, i)`, with exactly the separator between each two.
   */
  lemma JoinLayout(sep: string, parts: seq<string>)
    ensures forall i :: 0 <= i < |parts| ==>
      && PartEnd(sep, parts, i) <= |Join(sep, parts)|
      && Join(sep, parts)[PartStart(sep, parts, i)..PartEnd(sep, parts, i)] == parts[i]
    ensures forall i :: 0 <= i < |parts| - 1 ==>
      && PartStart(sep, parts, i + 1) <= |Join(sep, parts)|
      && Join(sep, parts)[PartEnd(sep, parts, i)..PartStart(sep, parts, i + 1)] == sep
  {
    forall i | 0 <= i < |parts| {
      JoinPart(sep, parts, i);
    }
  }

  /** `f'"{v}"[Affiliation]'`. */
  function AffiliationTerm(v: string): string {
    "\"" + v + "\"[Affiliation]"
  }

  function AffiliationTerms(variations: seq<string>): (ts: seq<string>)
    ensures |ts| == |variations|
  {
    seq(|variations|, i requires 0 <= i < |variations| => AffiliationTerm(variations[i]))
  }

  /** `f"({' OR '.join(...)})"`: every variant as an affiliation term, OR-ed, in parentheses. */
  function AffiliationQuery(variations: seq<string>): (q: string)
    ensures |q| >= 2 && q[0] == '(' && q[|q| - 1] == ')'
  {
    "(" + Join(" OR ", AffiliationTerms(variations)) + ")"
  }

  /** `f"{from_date}:{to_date or '3000/12/31'}[dp]"`. */
  function DateRange(fromDate: string, toDate: Option<string>): (r: string)
    ensures |fromDate| < |r| && r[..|fromDate|] == fromDate && r[|fromDate|] == ':'
    ensures EndsWith(r, "[dp]")
  {
    fromDate + ":" + (if Given(toDate) then toDate.value else OPEN_END_DATE) + "[dp]"
  }

  /** The search term of `search_pubmed`. */
  function BuildQuery(variations: seq<string>, fromDate: Option<string>, toDate: Option<string>): (q: string)
    ensures |AffiliationQuery(variations)| <= |q| && q[..|AffiliationQuery(variations)|] == AffiliationQuery(variations)
    ensures |q| > |AffiliationQuery(variations)| <==> Given(fromDate)
  {
    var query := AffiliationQuery(variations);
    if Given(fromDate) then query + " AND " + DateRange(fromDate.value, toDate) else query
  }

  /** With no variants the affiliation clause is just "()". */
  lemma NoVariantsQuery()
    ensures AffiliationQuery([]) == "()"
  {
  }

  lemma InsideParentheses(j: string, a: nat, b: nat)
    requires a <= b <= |j|
    ensures ("(" + j + ")")[1 + a..1 + b] == j[a..b]
  {
    SliceInFront("(" + j, ")", 1 + a, 1 + b);
    SliceBehind("(", j, 1 + a, 1 + b);
  }

  /**
   * In the affiliation clause `q`, variant i's term `"v"[Affiliation]` stands
   * at offset 1 + `PartStart`, and " OR " follows it unless it is the last.
   */
  predicate TermInClause(variations: seq<string>, i: nat)
    requires i < |variations|
  {
    var q, ts := AffiliationQuery(variations), AffiliationTerms(variations);
    && 1 + PartEnd(" OR ", ts, i) <= |q|
    && q[1 + PartStart(" OR ", ts, i)..1 + PartEnd(" OR ", ts, i)] == "\"" + variations[i] + "\"[Affiliation]"
    && (i + 1 < |ts| ==>
          && 1 + PartStart(" OR ", ts, i + 1) <= |q|
          && q[1 + PartEnd(" OR ", ts, i)..1 + PartStart(" OR ", ts, i + 1)] == " OR ")
  }

  lemma AffiliationTermAt(variations: seq<string>, i: nat)
    requires i < |variations|
    ensures TermInClause(variations, i)
  {
    var ts := AffiliationTerms(variations);
    var j := Join(" OR ", ts);
    JoinPart(" OR ", ts, i);
    assert ts[i] == AffiliationTerm(variations[i]);
    InsideParentheses(j, PartStart(" OR ", ts, i), PartEnd(" OR ", ts, i));
    if i + 1 < |ts| {
      InsideParentheses(j, PartEnd(" OR ", ts, i), PartStart(" OR ", ts, i + 1));
    }
  }

  /**
   * The affiliation clause opens with "(", closes with ")", and between them
   * holds `"v"[Affiliation]` for every variant v, in list order, with " OR "
   * between each two.
   */
  lemma AffiliationQueryLayout(variations: seq<string>)
    ensures |AffiliationQuery(variations)| >= 2
    ensures AffiliationQuery(variations)[0] == '('
    ensures AffiliationQuery(variations)[|AffiliationQuery(variations)| - 1] == ')'
    ensures forall i :: 0 <= i < |variations| ==> TermInClause(variations, i)
    ensures |variations| == 0 ==> AffiliationQuery(variations) == "()"
    ensures |variations| > 0 ==>
      |AffiliationQuery(variations)| == 2 + PartEnd(" OR ", AffiliationTerms(variations), |variations| - 1)
  {
    if |variations| > 0 {
      JoinLength(" OR ", AffiliationTerms(variations));
    }
    forall i | 0 <= i < |variations| {
      AffiliationTermAt(variations, i);
    }
  }

  /**
   * Without a (non-empty) start date the term is the affiliation clause
   * alone; with one it is that clause AND-ed with `from:to[dp]`, the upper
   * bound defaulting to 3000/12/31 when the end date is missing or empty.
   */
  lemma QueryDateClause(variations: seq<string>, fromDate: Option<string>, toDate: Option<string>)
    ensures !Given(fromDate) ==> BuildQuery(variations, fromDate, toDate) == AffiliationQuery(variations)
    ensures Given(fromDate) && Given(toDate) ==>
      BuildQuery(variations, fromDate, toDate)
      == AffiliationQuery(variations) + " AND " + (fromDate.value + ":" + toDate.value + "[dp]")
    ensures Given(fromDate) && !Given(toDate) ==>
      BuildQuery(variations, fromDate, toDate)
      == AffiliationQuery(variations) + " AND " + (fromDate.value + ":" + "3000/12/31" + "[dp]")
  {
  }

  predicate EndsWith(s: string, suffix: string) {
    |suffix| <= |s| && s[|s| - |suffix|..] == suffix
  }

  /** The term carries a date clause exactly when a start date is given. */
  lemma DateClauseIffStartDate(variations: seq<string>, fromDate: Option<string>, toDate: Option<string>)
    ensures EndsWith(BuildQuery(variations, fromDate, toDate), "[dp]") <==> Given(fromDate)
  {
    var q := BuildQuery(variations, fromDate, toDate);
    AffiliationQueryLayout(variations);
    if Given(fromDate) {
      var d := DateRange(fromDate.value, toDate);
      assert q[|q| - 4..] == d[|d| - 4..];
    } else {
      assert q[|q| - 1] == ')';
    }
  }

  /** A single variant is quoted, tagged and parenthesised, with no "OR". */
  lemma SingleVariantQuery(v: string)
    ensures AffiliationQuery([v]) == "(\"" + v + "\"[Affiliation])"
  {
    assert AffiliationTerms([v]) == [AffiliationTerm(v)];
  }

  /**
   * One variant, a start date and no end date: the date clause is open-ended,
   * closing on 3000/12/31.
   */
  lemma OpenEndedQuery(v: string, fromDate: string)
    requires fromDate != ""
    ensures BuildQuery([v], Some(fromDate), None)
      == "(\"" + v + "\"[Affiliation]) AND " + fromDate + ":3000/12/31[dp]"
  {
    SingleVariantQuery(v);
  }

  // ---------------------------------------------------------------------
  // The search call

  datatype SearchRequest = SearchRequest(
    db: string, term: string, retmax: nat, retmode: string, email: string, apiKey: string)

  /** The `esearchresult` object; a `None` field is a key it lacks. */
  datatype ESearchResult = ESearchResult(idlist: Option<seq<string>>, count: Option<int>)

  /**
   * What the search endpoint yields: `RequestFailed` for every
   * `requests.RequestException` (connection error, an HTTP error status, a
   * body that is not JSON); a reply whose top level lacks `esearchresult`
   * is `Reply(None)`.
   */
  datatype SearchResponse = RequestFailed | Reply(esearchresult: Option<ESearchResult>)

  datatype SearchError = MissingCredentials | MissingVariations | ConnectionError | MalformedResponse

  /** The ids returned and the total the service reported. */
  datatype SearchHit = SearchHit(ids: seq<string>, total: int)

  /** A search outcome and the requests sent to reach it, in order. */
  datatype SearchRun = SearchRun(result: Result<SearchHit, SearchError>, sent: seq<SearchRequest>)

  /** The condition under which the searcher notes that more papers exist than were returned. */
  predicate MoreThanReturned(hit: SearchHit) {
    hit.total > |hit.ids|
  }

  /** Reading `data['esearchresult']['idlist']` and `int(data['esearchresult']['count'])`. */
  function ReadReply(response: SearchResponse): (r: Result<SearchHit, SearchError>)
    ensures response.RequestFailed? ==> r == Failure(ConnectionError)
    ensures r.Success? <==>
      response.Reply? && response.esearchresult.Some?
      && response.esearchresult.value.idlist.Some? && response.esearchresult.value.count.Some?
    ensures r.Success? ==>
      r.value.ids == response.esearchresult.value.idlist.value
      && r.value.total == response.esearchresult.value.count.value
  {
    match response
    case RequestFailed => Failure(ConnectionError)
    case Reply(result) =>
      if result.None? || result.value.idlist.None? || result.value.count.None? then Failure(MalformedResponse)
      else Success(SearchHit(result.value.idlist.value, result.value.count.value))
  }

  /**
   * `search_pubmed` with its exits turned into errors: credentials first,
   * then the variant list, then one request whose reply is read.
   */
  function SearchPubmed(
    email: Option<string>, apiKey: Option<string>, variations: Option<seq<string>>,
    fromDate: Option<string>, toDate: Option<string>, remote: SearchRequest -> SearchResponse): (run: SearchRun)
    ensures !(Given(email) && Given(apiKey)) ==> run == SearchRun(Failure(MissingCredentials), [])
    ensures Given(email) && Given(apiKey) && variations.None? ==> run == SearchRun(Failure(MissingVariations), [])
    ensures Given(email) && Given(apiKey) && variations.Some? ==>
      |run.sent| == 1 && run.result == ReadReply(remote(run.sent[0]))
  {
    if !Given(email) || !Given(apiKey) then SearchRun(Failure(MissingCredentials), [])
    else if variations.None? then SearchRun(Failure(MissingVariations), [])
    else
      var request := SearchRequest("pubmed", BuildQuery(variations.value, fromDate, toDate), RETMAX, "json",
                                   email.value, apiKey.value);
      SearchRun(ReadReply(remote(request)), [request])
  }

  /**
   * Missing or empty credentials are a configuration error raised before any
   * request: nothing is sent and the outcome does not depend on the service
   * or on the variant list.
   */
  lemma CredentialsCheckedFirst(
    email: Option<string>, apiKey: Option<string>, v1: Option<seq<string>>, v2: Option<seq<string>>,
    fromDate: Option<string>, toDate: Option<string>, r1: SearchRequest -> SearchResponse, r2: SearchRequest -> SearchResponse)
    requires !Given(email) || !Given(apiKey)
    ensures SearchPubmed(email, apiKey, v1, fromDate, toDate, r1).sent == []
    ensures SearchPubmed(email, apiKey, v1, fromDate, toDate, r1) == SearchPubmed(email, apiKey, v2, fromDate, toDate, r2)
  {
  }

  /**
   * With credentials and variants present exactly one request is sent, for
   * the built term; the ids returned are the reply's `idlist` unchanged, even
   * when the reported count is larger.
   */
  lemma OneRequestIdsUnchanged(
    email: Option<string>, apiKey: Option<string>, variations: Option<seq<string>>,
    fromDate: Option<string>, toDate: Option<string>, remote: SearchRequest -> SearchResponse)
    requires Given(email) && Given(apiKey) && variations.Some?
    ensures var run := SearchPubmed(email, apiKey, variations, fromDate, toDate, remote);
      && |run.sent| == 1
      && run.sent[0] == SearchRequest("pubmed", BuildQuery(variations.value, fromDate, toDate), 100000, "json",
                                      email.value, apiKey.value)
      && (run.result.Success? ==> run.result.value.ids == remote(run.sent[0]).esearchresult.value.idlist.value)
      && (run.result.Success? ==> (MoreThanReturned(run.result.value) <==>
            remote(run.sent[0]).esearchresult.value.count.value > |remote(run.sent[0]).esearchresult.value.idlist.value|))
  {
  }

  // ---------------------------------------------------------------------
  // The year suffix of the output file names

  /** `s.split('/')[0]`: everything before the first "/". */
  function FirstSegment(s: string): (r: string)
    ensures |r| <= |s| && r == s[..|r|]
    ensures forall i :: 0 <= i < |r| ==> r[i] != '/'
    ensures |r| == |s| || s[|r|] == '/'
  {
    if s == [] || s[0] == '/' then [] else [s[0]] + FirstSegment(s[1..])
  }

  /** The three properties of `FirstSegment` determine it. */
  lemma FirstSegmentUnique(s: string, r: string)
    requires |r| <= |s| && r == s[..|r|]
    requires forall i :: 0 <= i < |r| ==> r[i] != '/'
    requires |r| == |s| || s[|r|] == '/'
    ensures r == FirstSegment(s)
  {
    var f := FirstSegment(s);
  }

  /** A date `year/rest` splits to its year. */
  lemma FirstSegmentOfDate(year: string, rest: string)
    requires forall i :: 0 <= i < |year| ==> year[i] != '/'
    ensures FirstSegment(year + "/" + rest) == year
  {
    var s := year + "/" + rest;
    assert s[..|year|] == year;
    FirstSegmentUnique(s, year);
  }

  /** The suffix `save_results` puts into both output file names. */
  function YearSuffix(fromDate: Option<string>, toDate: Option<string>): (y: string)
    ensures y == "" || y[0] == '_'
  {
    if Given(fromDate) && Given(toDate) && FirstSegment(fromDate.value) == FirstSegment(toDate.value)
    then "_" + FirstSegment(fromDate.value)
    else ""
  }

  /**
   * The suffix is "_" and the common year exactly when both dates are given
   * and their text before the first "/" agrees, and empty otherwise; it never
   * holds a "/", so it cannot move the files to another directory.
   */
  lemma YearSuffixRule(fromDate: Option<string>, toDate: Option<string>)
    ensures var y := YearSuffix(fromDate, toDate);
      && (y != "" <==> Given(fromDate) && Given(toDate) && FirstSegment(fromDate.value) == FirstSegment(toDate.value))
      && (y != "" ==> y == "_" + FirstSegment(fromDate.value) && y == "_" + FirstSegment(toDate.value))
      && (forall i :: 0 <= i < |y| ==> y[i] != '/')
  {
    var y := YearSuffix(fromDate, toDate);
    if y != "" {
      var seg := FirstSegment(fromDate.value);
      assert y == "_" + seg;
      assert forall i :: 1 <= i < |y| ==> y[i] == seg[i - 1];
    }
  }

  /** The bounds can be swapped without changing the suffix. */
  lemma YearSuffixSymmetric(a: Option<string>, b: Option<string>)
    ensures YearSuffix(a, b) == YearSuffix(b, a)
  {
  }

  /** Two dates `year/…` in the same year give "_year". */
  lemma SameYearSuffix(year: string, r1: string, r2: string)
    requires forall i :: 0 <= i < |year| ==> year[i] != '/'
    ensures YearSuffix(Some(year + "/" + r1), Some(year + "/" + r2)) == "_" + year
  {
    FirstSegmentOfDate(year, r1);
    FirstSegmentOfDate(year, r2);
  }

  /** Two dates in different years, or a range with no end date, give no suffix. */
  lemma NoYearSuffix(y1: string, y2: string, r1: string, r2: string)
    requires forall i :: 0 <= i < |y1| ==> y1[i] != '/'
    requires forall i :: 0 <= i < |y2| ==> y2[i] != '/'
    requires y1 != y2
    ensures YearSuffix(Some(y1 + "/" + r1), Some(y2 + "/" + r2)) == ""
    ensures YearSuffix(Some(y1 + "/" + r1), None) == ""
  {
    FirstSegmentOfDate(y1, r1);
    FirstSegmentOfDate(y2, r2);
  }
}
