/**
  The command-line front end (`main`): with no URLs it prints a usage line and
  stops; otherwise it runs the checker once with the URLs and the timeout
  option, prints a header and then one coloured line per entry of the results
  dict, in the dict's iteration order.

  Terminal output is modelled as the sequence of lines written, each with the
  colour it is written in (`Plain` for lines echoed without a colour).
*/
module Cli {
  import opened Text
  import opened Dicts
  import opened Checker
  import opened Decimal

  datatype Colour = Plain | Green | Red

  datatype Line = Line(text: string, colour: Colour)

  /** One call of the checker: the URL tuple and the timeout it was given. */
  datatype Invocation = Invocation(urls: seq<string>, timeout: int)

  const UsageText: string := "Usage: check-urls <URL1> <URL2> ..."
  const HeaderText: string := "\n--- Results ---"
  const UrlWidth: nat := 40
  const Arrow: string := " -> "
  const OkMarker: string := "OK"

  /** The colour a status is shown in: green exactly when "OK" occurs somewhere in it, red otherwise. */
  function StatusColour(status: string): (c: Colour)
    ensures c != Plain
    ensures c == Green <==> exists i :: OccursAt(status, OkMarker, i)
  {
    if Contains(status, OkMarker) then Green else Red
  }

  /**
    `f"{url:<40} -> {status}"`: the URL unchanged, spaces up to column 40 when
    it is shorter, then the arrow and the status.
  */
  function ResultText(url: string, status: string): (line: string)
    ensures |line| == Max(|url|, UrlWidth) + |Arrow| + |status|
    ensures line[..|url|] == url
    ensures forall j :: |url| <= j < Max(|url|, UrlWidth) ==> line[j] == ' '
    ensures line[Max(|url|, UrlWidth)..] == Arrow + status
  {
    var padded := PadRight(url, UrlWidth);
    var line := padded + Arrow + status;
    assert line[..|url|] == padded[..|url|];
    assert line[|padded|..] == Arrow + status;
    line
  }

  function ResultLine(url: string, status: string): Line {
    Line(ResultText(url, status), StatusColour(status))
  }

  /** The result lines for a sequence of dict items, one per item, in order. */
  function Report(items: seq<(string, string)>): seq<Line> {
    seq(|items|, j requires 0 <= j < |items| => ResultLine(items[j].0, items[j].1))
  }

  /** The `for url, status in results.items()` loop: one coloured line per entry, in iteration order. */
  method PrintResults(results: Dict<string, string>) returns (lines: seq<Line>)
    requires results.Valid()
    ensures lines == Report(results.Items())
  {
    var items := results.Items();
    lines := [];
    for i := 0 to |items|
      invariant |lines| == i
      invariant forall j :: 0 <= j < i ==> lines[j] == ResultLine(items[j].0, items[j].1)
    {
      var (url, status) := items[i];
      var colour;
      if Contains(status, OkMarker) {
        colour := Green;
      } else {
        colour := Red;
      }
      lines := lines + [Line(ResultText(url, status), colour)];
    }
  }

  /**
    `main(urls, timeout, verbose)` with the checker's GETs producing `outcomes`;
    returns the lines written, the checker calls made and the GETs issued.
  */
  method Run(urls: seq<string>, outcomes: seq<Outcome>, timeout: int := DefaultTimeout)
    returns (output: seq<Line>, invocations: seq<Invocation>, requests: seq<Request>)
    requires |outcomes| == |urls|
    ensures urls == [] ==> output == [Line(UsageText, Plain)] && invocations == [] && requests == []
    ensures urls != [] ==> invocations == [Invocation(urls, timeout)]
    ensures urls != [] ==> |requests| == |urls| && forall i :: 0 <= i < |urls| ==> requests[i] == Request(urls[i], timeout)
    ensures urls != [] ==> output == [Line(HeaderText, Plain)] + Report(Results(urls, outcomes).Items())
  {
    if urls == [] {
      output := [Line(UsageText, Plain)];
      invocations := [];
      requests := [];
      return;
    }
    var results;
    results, requests := CheckUrls(urls, outcomes, timeout);
    invocations := [Invocation(urls, timeout)];
    var lines := PrintResults(results);
    output := [Line(HeaderText, Plain)] + lines;
  }

  /** Every URL given on the command line gets a result line showing its entry in the results dict. */
  lemma {:induction false} ReportShowsEveryUrl(urls: seq<string>, outcomes: seq<Outcome>)
    requires |outcomes| == |urls|
    ensures forall u :: u in urls ==>
      && u in Results(urls, outcomes).entries
      && exists j :: 0 <= j < |Report(Results(urls, outcomes).Items())| &&
           Report(Results(urls, outcomes).Items())[j] == ResultLine(u, Results(urls, outcomes).entries[u])
  {
    var results := Results(urls, outcomes);
    var items := results.Items();
    AssignDomain(urls, Statuses(outcomes));
    forall u | u in urls
      ensures u in results.entries
      ensures exists j :: 0 <= j < |Report(items)| && Report(items)[j] == ResultLine(u, results.entries[u])
    {
      var j :| 0 <= j < |items| && items[j].0 == u;
      assert Report(items)[j] == ResultLine(u, results.entries[u]);
    }
  }

  /** Distinct URLs give one result line each, in input order, each with its own outcome's status. */
  lemma {:induction false} DistinctUrlsReport(urls: seq<string>, outcomes: seq<Outcome>)
    requires |outcomes| == |urls|
    requires forall i, j :: 0 <= i < j < |urls| ==> urls[i] != urls[j]
    ensures |Report(Results(urls, outcomes).Items())| == |urls|
    ensures forall i :: 0 <= i < |urls| ==> Report(Results(urls, outcomes).Items())[i] == ResultLine(urls[i], Classify(outcomes[i]))
  {
    ResultsDistinct(urls, outcomes);
  }

  /** One URL gives exactly one result line: that URL with its outcome's status, coloured by it. */
  lemma {:induction false} SingleUrlReport(url: string, o: Outcome)
    ensures Report(Results([url], [o]).Items()) == [ResultLine(url, Classify(o))]
  {
    var statuses := Statuses([o]);
    assert statuses == [Classify(o)];
    assert [url][..0] == [] && statuses[..0] == [];
    assert Assign([url], statuses) == Empty<string, string>().Put(url, Classify(o));
  }

  /** A result line shows the URL and, after it, "-> " and the status. */
  lemma ResultTextShowsUrlAndStatus(url: string, status: string)
    ensures Contains(ResultText(url, status), url)
    ensures Contains(ResultText(url, status), "-> " + status)
  {
    var line := ResultText(url, status);
    var w := Max(|url|, UrlWidth);
    assert OccursAt(line, url, 0);
    assert line[w + 1..] == "-> " + status;
    assert line[w + 1..w + 1 + |"-> " + status|] == "-> " + status;
    assert OccursAt(line, "-> " + status, w + 1);
  }

  /** A string without the letter 'K' holds no "OK". */
  lemma NoOkIn(a: string)
    requires forall i :: 0 <= i < |a| ==> a[i] != 'K'
    ensures !Contains(a, OkMarker)
  {
    forall i | 0 <= i && i + 2 <= |a|
      ensures !OccursAt(a, OkMarker, i)
    {
      assert a[i..i + 2][1] == a[i + 1];
    }
  }

  /** The fixed status texts, letter by letter: none holds a 'K', and the prefix ends in a space. */
  lemma FixedTextsHaveNoK()
    ensures forall i :: 0 <= i < |TimeoutStatus| ==> TimeoutStatus[i] != 'K'
    ensures forall i :: 0 <= i < |ConnectionErrorStatus| ==> ConnectionErrorStatus[i] != 'K'
    ensures forall i :: 0 <= i < |RequestErrorPrefix| ==> RequestErrorPrefix[i] != 'K'
    ensures RequestErrorPrefix[|RequestErrorPrefix| - 1] == ' '
  {
    assert TimeoutStatus == ['T', 'I', 'M', 'E', 'O', 'U', 'T'];
    assert ConnectionErrorStatus == ['C', 'O', 'N', 'N', 'E', 'C', 'T', 'I', 'O', 'N', '_', 'E', 'R', 'R', 'O', 'R'];
    assert RequestErrorPrefix == ['R', 'E', 'Q', 'U', 'E', 'S', 'T', ' ', 'E', 'R', 'R', 'O', 'R', ':', ' '];
  }

  /** A prefix without a 'K' that ends in a space never contributes an "OK": the text after it decides. */
  lemma {:induction false} PrefixLeavesOkToText(prefix: string, text: string)
    requires forall i :: 0 <= i < |prefix| ==> prefix[i] != 'K'
    requires prefix != [] && prefix[|prefix| - 1] == ' '
    ensures Contains(prefix + text, OkMarker) <==> Contains(text, OkMarker)
  {
    NoOkIn(prefix);
    ContainsAfterPrefix(prefix, text, OkMarker);
  }

  /** A response status holds "OK" exactly when the text after its code does. */
  lemma {:induction false} HttpStatusColour(code: int, text: string)
    ensures Contains(IntToString(code) + " " + text, OkMarker) <==> Contains(text, OkMarker)
  {
    PrefixLeavesOkToText(IntToString(code) + " ", text);
  }

  /** A request-error status holds "OK" exactly when the class name does. */
  lemma {:induction false} RequestErrorColour(kind: string)
    ensures Contains(RequestErrorPrefix + kind, OkMarker) <==> Contains(kind, OkMarker)
  {
    FixedTextsHaveNoK();
    PrefixLeavesOkToText(RequestErrorPrefix, kind);
  }

  /** The two fixed failure statuses hold no "OK". */
  lemma FailureStatusesAreRed()
    ensures !Contains(TimeoutStatus, OkMarker)
    ensures !Contains(ConnectionErrorStatus, OkMarker)
  {
    FixedTextsHaveNoK();
    NoOkIn(TimeoutStatus);
    NoOkIn(ConnectionErrorStatus);
  }

  /**
    Which outcomes are shown green: a successful response always; a failed
    response exactly when its reason phrase contains "OK"; a timeout or a
    connection error never; any other request error exactly when its class
    name contains "OK".
  */
  lemma {:induction false} OutcomeColour(o: Outcome)
    ensures StatusColour(Classify(o)) == Green <==>
      || (o.Response? && (o.ok || Contains(o.reason, OkMarker)))
      || (o.Raised? && !o.error.isTimeout && !o.error.isConnectionError && Contains(o.error.className, OkMarker))
  {
    match o
    case Response(ok, code, reason) =>
      if ok {
        assert Classify(o) == IntToString(code) + " " + OkMarker;
        assert OccursAt(OkMarker, OkMarker, 0);
        HttpStatusColour(code, OkMarker);
      } else {
        HttpStatusColour(code, reason);
      }
    case Raised(e) =>
      FailureStatusesAreRed();
      if !e.isTimeout && !e.isConnectionError {
        RequestErrorColour(e.className);
      }
  }
}
