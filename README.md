# simple_http_checker in Dafny

A model of `simple_http_checker`, a small command-line tool. It sends one HTTP
GET per URL, reports each URL's status, and colours each report line.

- `check_urls` walks the URLs in order and issues one GET per URL with the
  caller's timeout (default 5 seconds). It turns each outcome into a status
  string:
  - an ok response gives `"<code> OK"`;
  - any other response gives `"<code> <reason>"`;
  - a timeout gives `"TIMEOUT"`;
  - a connection error gives `"CONNECTION_ERROR"`;
  - any other request exception gives `"REQUEST ERROR: <class name>"`.

  It stores each status under its URL in a dict, so a repeated URL keeps the
  status of its last occurrence.
- `main` handles an empty URL list by printing a usage line and stopping.
  Otherwise it calls `check_urls` once, prints a header, and then writes one
  line per dict entry. Each line is the URL padded to 40 columns, then `" -> "`,
  then the status. A line is green when the status contains `"OK"` and red
  otherwise.

Files:

- `checker.dfy` (module `Checker`): the outcome and status types, the
  classification, and `CheckUrls`, the loop that fills the results dict. This
  module also holds the properties of the results.
- `cli.dfy` (module `Cli`): `Run` for `main`, `PrintResults` for its output
  loop, line formatting, and the colour rule.
- `dicts.dfy` (module `Dicts`): a Python dict as a value. It is a key order plus
  a map, and assigning an existing key keeps that key's place.
- `decimal.dfy` (module `Decimal`): `str` of an integer, and its parser.
- `text.dfy` (module `Text`): substring search, left-justified padding, and
  finding a character.
- `wrappers.dfy` (module `Wrappers`): `Option`.

Modelling choices:

- The HTTP client is not modelled. `CheckUrls` and `Run` take a sequence of
  outcomes parallel to the URLs; the i-th outcome is what the i-th GET
  produced. Both return the requests they issued as `Request(url, timeout)`
  values.
- Each exception is described by its class name and two flags: whether it
  is a `Timeout` and whether it is a `ConnectionError`. The client's
  `ConnectTimeout` is both, and the handlers are tried in source order.
- `ok` is a flag of its own. It is not derived from the code.
- The results dict is a local value that the loop reassigns with `Put`.
  Iterating it follows its insertion order.
- `main` prints the results in the dict's iteration order, which is insertion
  order.
- The header is echoed as `"\n--- Results ---"`, so a blank line comes before
  it.
- Each status has a partner, `ParseStatus`, which reads it back.
  `StatusIsUnambiguous` proves that every status reads back to what its
  outcome means (`Meaning`). So two different reports never share a status
  string.

## Model

| member | source | states |
|---|---|---|
| Checker.CheckUrls | src/simple_http_checker/checker.py:8-54 | one GET per URL, in input order, each with the caller's timeout; the returned dict is `Results(urls, outcomes)`, each URL's status assigned in turn from `{}`; no URLs gives `{}` and no request |
| Checker.ClassifyOutcome | src/simple_http_checker/checker.py:26-49 | starting from the placeholder, the handlers (ok response, other response, Timeout, ConnectionError, other RequestException; first match wins) leave exactly the status `Classify` gives; `Classify` is the function the classification lemmas below are about |
| Checker.Results | src/simple_http_checker/checker.py:23-51 | the dict built by the loop is well formed: distinct keys in insertion order, each with one entry |
| Checker.StatusIsUnambiguous | src/simple_http_checker/checker.py:32-45 | every status reads back (`ParseStatus`) to what its outcome reports: the code and "OK" for an ok response, the code and the reason otherwise, timeout before connection error, else the class name |
| Checker.HttpStatusReadsBack | src/simple_http_checker/checker.py:33-37 | `"<code> <text>"` reads back as that code and that text, for any integer code and any text |
| Checker.RequestErrorReadsBack | src/simple_http_checker/checker.py:44-45 | `"REQUEST ERROR: <name>"` reads back as that class name |
| Checker.ClassifyDistinguishes | src/simple_http_checker/checker.py:32-45 | two outcomes with the same status report the same thing |
| Checker.UnknownIsNoStatus | src/simple_http_checker/checker.py:26 | the placeholder "UNKNOWN" is not the spelling of any report |
| Checker.ClassifyNeverUnknown | src/simple_http_checker/checker.py:26-45 | every outcome overwrites the placeholder |
| Checker.ResultsNeverUnknown | src/simple_http_checker/checker.py:26-51 | no entry of the results dict is "UNKNOWN" |
| Checker.ResultsLastWins | src/simple_http_checker/checker.py:51 | a URL's entry holds the status of the outcome of its last occurrence |
| Checker.ResultsDistinct | src/simple_http_checker/checker.py:25-51 | distinct URLs: iteration order is the input order, the dict has as many entries as URLs, each URL holds its own outcome's status |
| Checker.ResultsKeysAndOrder | src/simple_http_checker/checker.py:23-51 | the dict's keys are exactly the input URLs, iterated in order of first occurrence |
| Checker.ResponseExamples | src/simple_http_checker/checker.py:32-37 | ok 200 gives "200 OK" with or without a reason phrase; 404 "Not Found" gives "404 Not Found"; 500 "Server Error" gives "500 Server Error" |
| Checker.ExceptionExamples | src/simple_http_checker/checker.py:38-45 | Timeout and ConnectTimeout give "TIMEOUT", ConnectionError gives "CONNECTION_ERROR", RequestException gives "REQUEST ERROR: RequestException" |
| Decimal.NatToString | src/simple_http_checker/checker.py:33 | the decimal digits of a natural: non-empty, all digits, no leading zero except for 0 itself, and their value is the number |
| Decimal.IntToString | src/simple_http_checker/checker.py:36 | `str` of an integer: non-empty, a leading minus exactly for negatives, digits otherwise |
| Decimal.ParseIntToString | src/simple_http_checker/checker.py:33 | parsing the rendered code gives back the integer |
| Decimal.DecimalExamples | src/simple_http_checker/checker.py:33 | 200, 404 and 500 render as "200", "404" and "500" |
| Dicts.Empty | src/simple_http_checker/checker.py:23 | `{}` is well formed and has no entries |
| Dicts.Dict.Put | src/simple_http_checker/checker.py:51 | `d[k] = v` sets the entry, keeps an existing key's place or appends a new key, and keeps the dict well formed |
| Dicts.Dict.Items | src/simple_http_checker/cli.py:41 | `items()` yields each entry once, in insertion order, with its value, and covers every key |
| Dicts.AssignValid | src/simple_http_checker/checker.py:25-51 | assigning keys in turn keeps the dict well formed |
| Dicts.AssignStep | src/simple_http_checker/checker.py:51 | one more assignment is one more `Put` |
| Dicts.AssignedFrom | src/simple_http_checker/checker.py:51 | every entry came from some assignment of that key |
| Dicts.AssignDomain | src/simple_http_checker/checker.py:25-51 | the keys are exactly the assigned keys |
| Dicts.AssignLastWins | src/simple_http_checker/checker.py:51 | a key holds the value of its last assignment |
| Dicts.AssignFirstSeenOrder | src/simple_http_checker/checker.py:51 | iteration follows the order of first assignment |
| Dicts.AssignDistinct | src/simple_http_checker/checker.py:25-51 | distinct keys are iterated in assignment order |
| Text.Contains | src/simple_http_checker/cli.py:42 | `sub in s` holds exactly when `sub` occurs at some position of `s` |
| Text.PadRight | src/simple_http_checker/cli.py:48 | `{s:<w}`: `s` unchanged, then spaces up to width `w`, never truncated |
| Text.ContainsAfterPrefix | src/simple_http_checker/cli.py:42 | a prefix without the two-letter pattern that does not end in its first letter does not change whether the pattern occurs |
| Cli.StatusColour | src/simple_http_checker/cli.py:42-46 | green exactly when "OK" occurs in the status, red otherwise |
| Cli.ResultText | src/simple_http_checker/cli.py:48 | the URL unchanged, padded with spaces to column 40, then " -> " and the status |
| Cli.PrintResults | src/simple_http_checker/cli.py:41-48 | one line per dict entry, in iteration order, with that entry's text and colour |
| Cli.Run | src/simple_http_checker/cli.py:25-48 | no URLs: only the usage line, no checker call, no request; otherwise one checker call with the URLs and the timeout, then the header, then one line per result entry |
| Cli.ReportShowsEveryUrl | src/simple_http_checker/cli.py:39-48 | every URL on the command line gets a result line with its status |
| Cli.DistinctUrlsReport | src/simple_http_checker/cli.py:39-48 | distinct URLs give exactly one result line each, in input order, each with its own outcome's status |
| Cli.SingleUrlReport | src/simple_http_checker/cli.py:39-48 | one URL gives exactly one result line, with that URL's outcome's status |
| Cli.ResultTextShowsUrlAndStatus | src/simple_http_checker/cli.py:48 | a result line contains the URL and "-> " followed by the status |
| Cli.HttpStatusColour | src/simple_http_checker/cli.py:42 | a response status contains "OK" exactly when the text after its code does |
| Cli.RequestErrorColour | src/simple_http_checker/cli.py:42 | a request-error status contains "OK" exactly when the class name does |
| Cli.FailureStatusesAreRed | src/simple_http_checker/cli.py:42-46 | "TIMEOUT" and "CONNECTION_ERROR" contain no "OK" |
| Cli.OutcomeColour | src/simple_http_checker/cli.py:42-46 | green exactly for: an ok response; a failed response whose reason contains "OK"; any other request error whose class name contains "OK"; timeouts and connection errors are never green |

## Left out

- The HTTP GET is not modelled: no network, DNS, redirects or timing. Its outcomes are an input sequence, and the timeout is only passed through.
- The outcomes sequence must be as long as the URL list (`requires |outcomes| == |urls|`). This describes the environment, not a demand of the source.
- Exception objects keep only their class name and whether they are a `Timeout` or a `ConnectionError`. The rest of the `requests` exception hierarchy and exception messages are not modelled.
- A response's reason is always a string. A missing (`None`) reason, which Python would print as `None`, is not modelled.
- All logging is left out: the module loggers, `logging.basicConfig` and the `--verbose` level switch. These only add observability.
- `click` argument parsing is left out, and so is writing ANSI colour codes. `Run` receives the URL tuple and the timeout already parsed, and colour is a tag on each output line.
- `Run` models exit code 0 only by always returning normally. The model has no error path because every outcome it accepts is handled.
- The model assumes every exception raised by the GET is a `RequestException`. The handlers catch only that class and its subclasses, so any other exception (an `OSError` for a missing CA bundle, say) escapes `check_urls` and `main` and ends the command with a non-zero exit code. The closed `Outcome` type cannot express that case.
- `Meaning` and `ParseStatus` do not exist in the source. They are reference definitions that state what each status reports.
