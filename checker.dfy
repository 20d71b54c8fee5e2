/**
  The URL checker (`check_urls`): one GET per URL, in input order, with the
  caller's timeout; each outcome is classified into a status string and stored
  in a results dict under its URL.

  The HTTP call itself is not modelled. Its outcomes are an input: a sequence
  parallel to the URLs, the i-th element being what the i-th call produced.
*/
module Checker {
  import opened Wrappers
  import opened Decimal
  import opened Dicts
  import Text

  const DefaultTimeout: int := 5

  /** The placeholder a status holds before the request is classified. */
  const Unknown: string := "UNKNOWN"

  const TimeoutStatus: string := "TIMEOUT"
  const ConnectionErrorStatus: string := "CONNECTION_ERROR"
  const RequestErrorPrefix: string := "REQUEST ERROR: "

  /**
    An exception raised by the HTTP client, seen through the three handlers that
    catch it: whether it is a `Timeout`, whether it is a `ConnectionError` (the
    client's `ConnectTimeout` is both), and its class name.
  */
  datatype RequestError = RequestError(className: string, isTimeout: bool, isConnectionError: bool)

  const TimeoutError := RequestError("Timeout", true, false)
  const ConnectionError := RequestError("ConnectionError", false, true)
  const ConnectTimeout := RequestError("ConnectTimeout", true, true)
  const RequestException := RequestError("RequestException", false, false)

  /**
    What one GET produced: a response (its `ok` flag is kept independent of the
    code, as the client defines it) or a raised request exception.
  */
  datatype Outcome =
    | Response(ok: bool, code: int, reason: string)
    | Raised(error: RequestError)

  /** One call of the HTTP client: the URL and the timeout it was given. */
  datatype Request = Request(url: string, timeout: int)

  /** The status string for one outcome; the exception handlers are tried in source order. */
  function Classify(o: Outcome): string {
    match o
    case Response(ok, code, reason) =>
      if ok then IntToString(code) + " OK" else IntToString(code) + " " + reason
    case Raised(e) =>
      if e.isTimeout then TimeoutStatus
      else if e.isConnectionError then ConnectionErrorStatus
      else RequestErrorPrefix + e.className
  }

  /** What a status string reports, independently of how it is spelled. */
  datatype Label =
    | Http(code: int, text: string)
    | TimedOut
    | ConnectionFailed
    | RequestFailed(kind: string)

  /**
    The report each outcome is meant to produce: a successful response reports
    the fixed text "OK" whatever its reason phrase, a failed one its reason
    phrase; a timeout wins over a connection error, and any other request error
    reports its class name.
  */
  function Meaning(o: Outcome): Label {
    match o
    case Response(ok, code, reason) => Http(code, if ok then "OK" else reason)
    case Raised(e) =>
      if e.isTimeout then TimedOut
      else if e.isConnectionError then ConnectionFailed
      else RequestFailed(e.className)
  }

  /** Reads a status string back: the inverse of `Classify` up to `Meaning`. */
  function ParseStatus(s: string): Option<Label> {
    if s == TimeoutStatus then Some(TimedOut)
    else if s == ConnectionErrorStatus then Some(ConnectionFailed)
    else if |RequestErrorPrefix| <= |s| && s[..|RequestErrorPrefix|] == RequestErrorPrefix then
      Some(RequestFailed(s[|RequestErrorPrefix|..]))
    else
      var k := Text.IndexOf(s, ' ');
      if k == |s| then None
      else
        match ParseInt(s[..k])
        case Some(code) => Some(Http(code, s[k + 1..]))
        case None => None
  }

  /** A code followed by a space and any text reads back as that code and that text. */
  lemma HttpStatusReadsBack(code: int, text: string)
    ensures ParseStatus(IntToString(code) + " " + text) == Some(Http(code, text))
  {
    var num := IntToString(code);
    var s := num + " " + text;
    assert s[0] == num[0];
    assert |RequestErrorPrefix| <= |s| ==> s[..|RequestErrorPrefix|][0] == num[0];
    assert s[|num|] == ' ';
    assert forall j :: 0 <= j < |num| ==> s[j] == num[j];
    var k := Text.IndexOf(s, ' ');
    assert k == |num|;
    assert s[..k] == num;
    assert s[k + 1..] == text;
    ParseIntToString(code);
  }

  /** The prefix followed by any class name reads back as that class name. */
  lemma RequestErrorReadsBack(kind: string)
    ensures ParseStatus(RequestErrorPrefix + kind) == Some(RequestFailed(kind))
  {
    var s := RequestErrorPrefix + kind;
    assert s[..|RequestErrorPrefix|] == RequestErrorPrefix;
    assert s[0] == 'R';
    assert s[|RequestErrorPrefix|..] == kind;
  }

  /** Every status string can be read back to what its outcome means: no two reports are confused. */
  lemma StatusIsUnambiguous(o: Outcome)
    ensures ParseStatus(Classify(o)) == Some(Meaning(o))
  {
    match o
    case Response(ok, code, reason) =>
      if ok {
        assert Classify(o) == IntToString(code) + " " + "OK";
        HttpStatusReadsBack(code, "OK");
      } else {
        HttpStatusReadsBack(code, reason);
      }
    case Raised(e) =>
      if !e.isTimeout && !e.isConnectionError {
        RequestErrorReadsBack(e.className);
      }
  }

  /** Two outcomes get the same status only if they report the same thing. */
  lemma {:induction false} ClassifyDistinguishes(o1: Outcome, o2: Outcome)
    requires Classify(o1) == Classify(o2)
    ensures Meaning(o1) == Meaning(o2)
  {
    StatusIsUnambiguous(o1);
    StatusIsUnambiguous(o2);
  }

  /** The placeholder is always overwritten: no outcome is reported as "UNKNOWN". */
  lemma {:induction false} ClassifyNeverUnknown(o: Outcome)
    ensures Classify(o) != Unknown
  {
    StatusIsUnambiguous(o);
    UnknownIsNoStatus();
  }

  /** The placeholder does not read back as any report. */
  lemma UnknownIsNoStatus()
    ensures ParseStatus(Unknown) == None
  {
    assert Text.IndexOf(Unknown, ' ') == |Unknown|;
  }

  /** The status of each outcome, call by call. */
  function Statuses(outcomes: seq<Outcome>): seq<string> {
    seq(|outcomes|, i requires 0 <= i < |outcomes| => Classify(outcomes[i]))
  }

  /** The results dict after checking `urls` with `outcomes`: each URL's status stored in turn. */
  function Results(urls: seq<string>, outcomes: seq<Outcome>): (d: Dict<string, string>)
    requires |outcomes| == |urls|
    ensures d.Valid()
  {
    AssignValid(urls, Statuses(outcomes));
    Assign(urls, Statuses(outcomes))
  }

  /**
    The body of the `try` statement in `check_urls` with its handlers: the
    status starts as the placeholder and exactly one branch overwrites it.
  */
  method ClassifyOutcome(outcome: Outcome) returns (status: string)
    ensures status == Classify(outcome)
  {
    status := Unknown;
    match outcome {
      case Response(ok, code, reason) =>
        if ok {
          status := IntToString(code) + " OK";
        } else {
          status := IntToString(code) + " " + reason;
        }
      case Raised(e) =>
        if e.isTimeout {
          status := TimeoutStatus;
        } else if e.isConnectionError {
          status := ConnectionErrorStatus;
        } else {
          status := RequestErrorPrefix + e.className;
        }
    }
  }

  /** `check_urls(urls, timeout)`, with `outcomes[i]` standing for what the i-th GET produced. */
  method CheckUrls(urls: seq<string>, outcomes: seq<Outcome>, timeout: int := DefaultTimeout)
    returns (results: Dict<string, string>, requests: seq<Request>)
    requires |outcomes| == |urls|
    ensures results == Results(urls, outcomes)
    ensures |requests| == |urls|
    ensures forall i :: 0 <= i < |urls| ==> requests[i] == Request(urls[i], timeout)
    ensures urls == [] ==> results.entries == map[] && requests == []
  {
    ghost var statuses := Statuses(outcomes);
    results := Empty();
    requests := [];
    for i := 0 to |urls|
      invariant results == Assign(urls[..i], statuses[..i])
      invariant |requests| == i
      invariant forall j :: 0 <= j < i ==> requests[j] == Request(urls[j], timeout)
    {
      var url := urls[i];
      requests := requests + [Request(url, timeout)];
      assert forall j :: 0 <= j < i + 1 ==> requests[j] == Request(urls[j], timeout);
      var status := ClassifyOutcome(outcomes[i]);
      AssignStep(urls, statuses, i);
      results := results.Put(url, status);
    }
    assert urls[..|urls|] == urls && statuses[..|urls|] == statuses;
  }

  /** No entry of the results dict holds the placeholder. */
  lemma {:induction false} ResultsNeverUnknown(urls: seq<string>, outcomes: seq<Outcome>)
    requires |outcomes| == |urls|
    ensures forall k :: k in Results(urls, outcomes).entries ==> Results(urls, outcomes).entries[k] != Unknown
  {
    var statuses := Statuses(outcomes);
    forall k | k in Results(urls, outcomes).entries
      ensures Results(urls, outcomes).entries[k] != Unknown
    {
      var i := AssignedFrom(urls, statuses, k);
      ClassifyNeverUnknown(outcomes[i]);
    }
  }

  /** A URL's entry holds the status of the outcome of its last occurrence in the input. */
  lemma {:induction false} ResultsLastWins(urls: seq<string>, outcomes: seq<Outcome>, i: int)
    requires |outcomes| == |urls| && 0 <= i < |urls|
    requires forall j :: i < j < |urls| ==> urls[j] != urls[i]
    ensures urls[i] in Results(urls, outcomes).entries
    ensures Results(urls, outcomes).entries[urls[i]] == Classify(outcomes[i])
  {
    AssignLastWins(urls, Statuses(outcomes), i);
  }

  /** Distinct URLs give one entry each, in input order, each holding its own outcome's status. */
  lemma {:induction false} ResultsDistinct(urls: seq<string>, outcomes: seq<Outcome>)
    requires |outcomes| == |urls|
    requires forall i, j :: 0 <= i < j < |urls| ==> urls[i] != urls[j]
    ensures Results(urls, outcomes).order == urls
    ensures |Results(urls, outcomes).entries| == |urls|
    ensures forall i :: 0 <= i < |urls| ==>
      urls[i] in Results(urls, outcomes).entries && Results(urls, outcomes).entries[urls[i]] == Classify(outcomes[i])
  {
    AssignValid(urls, Statuses(outcomes));
    AssignDistinct(urls, Statuses(outcomes));
    forall i | 0 <= i < |urls|
      ensures urls[i] in Results(urls, outcomes).entries && Results(urls, outcomes).entries[urls[i]] == Classify(outcomes[i])
    {
      ResultsLastWins(urls, outcomes, i);
    }
  }

  /**
    The results dict has exactly the input URLs as keys, and iterates over them
    in the order each was first given.
  */
  lemma {:induction false} ResultsKeysAndOrder(urls: seq<string>, outcomes: seq<Outcome>)
    requires |outcomes| == |urls|
    ensures forall u :: u in Results(urls, outcomes).entries <==> u in urls
    ensures forall i :: 0 <= i < |Results(urls, outcomes).order| ==> Results(urls, outcomes).order[i] in urls
    ensures forall i, j :: 0 <= i < j < |Results(urls, outcomes).order| ==>
      FirstIndex(urls, Results(urls, outcomes).order[i]) < FirstIndex(urls, Results(urls, outcomes).order[j])
  {
    AssignDomain(urls, Statuses(outcomes));
    AssignFirstSeenOrder(urls, Statuses(outcomes));
  }

  /** The statuses of the documented responses: an ok response reads "OK" whatever its reason phrase. */
  lemma ResponseExamples()
    ensures Classify(Response(true, 200, "")) == "200 OK"
    ensures Classify(Response(true, 200, "Created")) == "200 OK"
    ensures Classify(Response(false, 404, "Not Found")) == "404 Not Found"
    ensures Classify(Response(false, 500, "Server Error")) == "500 Server Error"
  {
    DecimalExamples();
    assert "200" + " OK" == "200 OK";
    assert "404" + " " + "Not Found" == "404 Not Found";
    assert "500" + " " + "Server Error" == "500 Server Error";
  }

  /** The statuses of the documented exceptions; a connect timeout is reported as a timeout. */
  lemma ExceptionExamples()
    ensures Classify(Raised(TimeoutError)) == "TIMEOUT"
    ensures Classify(Raised(ConnectTimeout)) == "TIMEOUT"
    ensures Classify(Raised(ConnectionError)) == "CONNECTION_ERROR"
    ensures Classify(Raised(RequestException)) == "REQUEST ERROR: RequestException"
  {
  }
}
