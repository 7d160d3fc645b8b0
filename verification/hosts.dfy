/** The host list as it travels from the inventory server to the cache file:
    the decoded response, the errors of the download-and-parse pipeline, and the
    text format (one name per line) that is cached and printed. */
module Hosts {
  import opened Wrappers
  import opened GoStrings

  newtype byte = x: int | 0 <= x < 256

  /** The raw body of the HTTP response. */
  type Payload = seq<byte>

  /** One element of the `Results` array; only its `Name` is read. */
  datatype HostRecord = HostRecord(name: string)

  /** The decoded JSON object `{"Results": [...]}`. */
  datatype Response = Response(results: seq<HostRecord>)

  /** Why a fresh host list could not be produced. */
  datatype Error =
    | RequestBuildError        // the request for the configured URL could not be built
    | TransportError           // the connection or TLS handshake failed
    | BodyReadError            // the response body could not be read
    | ParseError(detail: string)  // the body is not a `Response`

  /** The names of the records, in array order. */
  function Names(results: seq<HostRecord>): (names: seq<string>)
    ensures |names| == |results|
    ensures forall k :: 0 <= k < |results| ==> names[k] == results[k].name
  {
    seq(|results|, k requires 0 <= k < |results| => results[k].name)
  }

  /** True when no name would break the one-name-per-line format. */
  predicate LineSafe(names: seq<string>) {
    forall k :: 0 <= k < |names| ==> '\n' !in names[k]
  }

  /** The cache text: every name followed by a newline, in array order. */
  function Format(results: seq<HostRecord>): (text: string)
    ensures text == "" <==> |results| == 0
    ensures |results| > 0 ==> text[|text| - 1] == '\n'
  {
    if |results| == 0 then ""
    else results[0].name + "\n" + Format(results[1..])
  }

  /** Appending a record appends its line: the effect of one round of the
      formatting loop. */
  lemma {:induction false} FormatSnoc(results: seq<HostRecord>, r: HostRecord)
    ensures Format(results + [r]) == Format(results) + r.name + "\n"
  {
    if |results| == 0 {
      assert results + [r] == [r];
    } else {
      var head, line := results[0].name + "\n", r.name + "\n";
      assert (results + [r])[0] == results[0];
      assert (results + [r])[1..] == results[1..] + [r];
      FormatSnoc(results[1..], r);
      assert Format(results + [r]) == head + (Format(results[1..]) + line);
      assert Format(results) == head + Format(results[1..]);
    }
  }

  /** The formatting loop over `hosts.Results`, appending to a buffer. */
  method FormatBuffer(results: seq<HostRecord>) returns (text: string)
    ensures text == Format(results)
  {
    text := "";
    var i := 0;
    while i < |results|
      invariant 0 <= i <= |results|
      invariant text == Format(results[..i])
    {
      FormatSnoc(results[..i], results[i]);
      assert results[..i + 1] == results[..i] + [results[i]];
      text := text + results[i].name + "\n";
      i := i + 1;
    }
    assert results[..i] == results;
  }

  /** The cache text is the names joined by newlines with one more, empty, line
      at the end. */
  lemma {:induction false} FormatIsJoin(results: seq<HostRecord>)
    ensures Format(results) == Join(Names(results) + [""], '\n')
  {
    if |results| > 0 {
      FormatIsJoin(results[1..]);
      var names := Names(results) + [""];
      assert names[1..] == Names(results[1..]) + [""];
      assert |names| >= 2;
    }
  }

  /** Reading the cache text back line by line gives the names, then exactly one
      trailing empty line, provided no name contains a newline. */
  lemma FormatSplit(results: seq<HostRecord>)
    requires LineSafe(Names(results))
    ensures Split(Format(results), '\n') == Names(results) + [""]
  {
    FormatIsJoin(results);
    var lines := Names(results) + [""];
    assert forall k :: 0 <= k < |lines| ==> '\n' !in lines[k];
    SplitJoin(lines, '\n');
  }

  /** Different line-safe name lists never share a cache text. */
  lemma FormatInjective(a: seq<HostRecord>, b: seq<HostRecord>)
    requires LineSafe(Names(a)) && LineSafe(Names(b))
    requires Format(a) == Format(b)
    ensures Names(a) == Names(b)
  {
    FormatSplit(a);
    FormatSplit(b);
    assert Names(a) == (Names(a) + [""])[..|a|];
    assert Names(b) == (Names(b) + [""])[..|b|];
  }

  /** `downloadParseHosts`: download, then parse, then format. The first error is
      returned as it is and stops the pipeline; text is produced only when both
      steps succeed, and it is the formatted list of the parsed records. */
  function DownloadParseHosts(download: Result<Payload, Error>,
                              parse: Payload -> Result<Response, Error>): (r: Result<string, Error>)
    ensures r.Success? <==> download.Success? && parse(download.value).Success?
    ensures download.Failure? ==> r == Failure(download.error)
    ensures download.Success? && parse(download.value).Failure? ==>
              r == Failure(parse(download.value).error)
    ensures r.Success? ==> r.value == Format(parse(download.value).value.results)
  {
    match download
    case Failure(e) => Failure(e)
    case Success(data) =>
      match parse(data)
      case Failure(e) => Failure(e)
      case Success(hosts) => Success(Format(hosts.results))
  }
}
