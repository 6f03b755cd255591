/**
 * The two Certificate Transparency endpoints the tool calls, relative to a
 * log's base url (section 4.3 and 4.6 of RFC 6962), and a parser that reads a
 * `get-entries` url back into the range it asks for.
 */
module Endpoints {
  import opened Options
  import opened Decimal
  import opened EntryRanges

  const SthPath := "ct/v1/get-sth"
  const EntriesPath := "ct/v1/get-entries?start="
  const EndParam := "&end="

  /**
   * The signed-tree-head url: the base url with "ct/v1/get-sth" appended. It is
   * never mistaken for a `get-entries` url of the same log.
   */
  function SthUrl(logUrl: string): (u: string)
    ensures |u| == |logUrl| + |SthPath|
    ensures u[..|logUrl|] == logUrl && u[|logUrl|..] == SthPath
    ensures ParseEntriesUrl(logUrl, u) == None
  {
    logUrl + SthPath
  }

  /**
   * `format!("{}ct/v1/get-entries?start={}&end={}", log_url, start, end)`: a
   * url on the log's base url. `PrintedUrlParses` shows it reads back as `r`.
   */
  function EntriesUrl(logUrl: string, r: EntryRange): (u: string)
    ensures |u| > |logUrl| + |EntriesPath| && u[..|logUrl|] == logUrl
  {
    (logUrl + EntriesPath) + EntriesQuery(r)
  }

  /** The part of a `get-entries` url after "?start=". */
  function EntriesQuery(r: EntryRange): string {
    IntToDecimal(r.start) + EndParam + IntToDecimal(r.end)
  }

  /** The position of the first `c` in `s`, if any. */
  function FirstIndexOf(s: string, c: char): (r: Option<nat>)
    ensures r.Some? ==> r.value < |s| && s[r.value] == c
    ensures r.Some? ==> forall k :: 0 <= k < r.value ==> s[k] != c
    ensures r.None? ==> forall k :: 0 <= k < |s| ==> s[k] != c
  {
    if |s| == 0 then None
    else if s[0] == c then Some(0)
    else match FirstIndexOf(s[1..], c)
      case None => None
      case Some(j) => Some(j + 1)
  }

  /** The range a `get-entries` url on `logUrl` asks for, or `None` if `url` is not one. */
  function ParseEntriesUrl(logUrl: string, url: string): Option<EntryRange> {
    var prefix := logUrl + EntriesPath;
    if |url| < |prefix| || url[..|prefix|] != prefix then None
    else ParseEntriesQuery(url[|prefix|..])
  }

  /** Reads "<start>&end=<end>", the part after "?start=". */
  function ParseEntriesQuery(query: string): Option<EntryRange> {
    var cut := FirstIndexOf(query, '&');
    if cut.None? then None
    else
      var tail := query[cut.value..];
      if |tail| < |EndParam| || tail[..|EndParam|] != EndParam then None
      else
        var start, end := ParseInt(query[..cut.value]), ParseInt(tail[|EndParam|..]);
        if start.Some? && end.Some? then Some(EntryRange(start.value, end.value)) else None
  }

  lemma PrintedQueryParses(r: EntryRange)
    ensures ParseEntriesQuery(EntriesQuery(r)) == Some(r)
  {
    var a, b := IntToDecimal(r.start), IntToDecimal(r.end);
    var query := a + EndParam + b;
    assert query[|a|] == '&';
    assert forall k :: 0 <= k < |a| ==> query[k] == a[k];
    assert FirstIndexOf(query, '&') == Some(|a|);
    assert query[..|a|] == a;
    var tail := query[|a|..];
    assert tail == EndParam + b;
    assert tail[..|EndParam|] == EndParam;
    assert tail[|EndParam|..] == b;
    PrintedIntParses(r.start);
    PrintedIntParses(r.end);
  }

  lemma SplitQuery(query: string, r: EntryRange) returns (head: string, endText: string)
    requires ParseEntriesQuery(query) == Some(r)
    ensures query == head + EndParam + endText
    ensures ParseInt(head) == Some(r.start) && ParseInt(endText) == Some(r.end)
  {
    var j := FirstIndexOf(query, '&').value;
    var tail := query[j..];
    head, endText := query[..j], tail[|EndParam|..];
    assert tail == EndParam + endText;
    assert query == head + tail;
  }

  lemma ParsedQueryPrints(query: string, r: EntryRange)
    requires ParseEntriesQuery(query) == Some(r)
    ensures query == EntriesQuery(r)
  {
    var head, endText := SplitQuery(query, r);
    ParsedIntPrints(head, r.start);
    ParsedIntPrints(endText, r.end);
  }

  lemma PrintedUrlParses(logUrl: string, r: EntryRange)
    ensures ParseEntriesUrl(logUrl, EntriesUrl(logUrl, r)) == Some(r)
  {
    var prefix, url := logUrl + EntriesPath, EntriesUrl(logUrl, r);
    assert url[..|prefix|] == prefix;
    assert url[|prefix|..] == EntriesQuery(r);
    PrintedQueryParses(r);
  }

  lemma ParsedUrlPrints(logUrl: string, url: string, r: EntryRange)
    requires ParseEntriesUrl(logUrl, url) == Some(r)
    ensures url == EntriesUrl(logUrl, r)
  {
    var prefix := logUrl + EntriesPath;
    ParsedQueryPrints(url[|prefix|..], r);
    assert url == prefix + url[|prefix|..];
  }

  /** Parsing a url yields a range exactly when the url is the one written for that range. */
  lemma EntriesUrlRoundTrip(logUrl: string, url: string, r: EntryRange)
    ensures ParseEntriesUrl(logUrl, url) == Some(r) <==> url == EntriesUrl(logUrl, r)
  {
    if url == EntriesUrl(logUrl, r) {
      PrintedUrlParses(logUrl, r);
    }
    if ParseEntriesUrl(logUrl, url) == Some(r) {
      ParsedUrlPrints(logUrl, url, r);
    }
  }

  /** Different ranges are requested through different urls. */
  lemma EntriesUrlInjective(logUrl: string, r1: EntryRange, r2: EntryRange)
    requires EntriesUrl(logUrl, r1) == EntriesUrl(logUrl, r2)
    ensures r1 == r2
  {
    PrintedUrlParses(logUrl, r1);
    PrintedUrlParses(logUrl, r2);
  }
}
