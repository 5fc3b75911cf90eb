/** The whoami handlers of httpserverb: the status query and the plain-text report. */
module Handlers {
  import opened Wrappers
  import opened GoInt
  import opened Strconv
  import opened Strings
  import opened Http

  /** What getRequestInfo gathers about the host and the request. */
  datatype JSONResponse = JSONResponse(
    hostname: string,
    ip: seq<string>,
    host: string,
    url: string,
    params: map<string, seq<string>>,
    httpMethod: string,
    proto: string,
    headers: map<string, seq<string>>,
    userAgent: string,
    remoteAddr: string,
    requestID: string)

  /** Whether a status query names a code getStatus passes through, one in [200, 599]. */
  predicate PassedThrough(statusQuery: string) {
    ParseInt(statusQuery).Some? && 200 <= ParseInt(statusQuery).value <= 599
  }

  /**
   * getStatus: the reply code asked for by the status query parameter ("" when absent). No
   * query gives 200, a code in [200, 599] is used as it is, and anything else gives 400.
   */
  function GetStatus(statusQuery: string): (code: int)
    ensures 200 <= code <= 599
    ensures statusQuery == "" ==> code == StatusOK
    ensures PassedThrough(statusQuery) ==> code == ParseInt(statusQuery).value
    ensures statusQuery != "" && !PassedThrough(statusQuery) ==> code == StatusBadRequest
  {
    if statusQuery == "" then StatusOK
    else
      match ParseInt(statusQuery)
      case None => StatusBadRequest
      case Some(status) => if status < 200 || status > 599 then StatusBadRequest else status
  }

  /** Asking for a code by its decimal form gives that code when it is in [200, 599], else 400. */
  lemma GetStatusOfCode(code: Int64)
    ensures GetStatus(FormatInt(code)) == if 200 <= code <= 599 then code else StatusBadRequest
  {
    ParseIntFormat(code);
  }

  /** The labels of the report's lines, in order. */
  const PlainLabels: seq<string> :=
    ["Hostname", "IP", "Host", "URL", "Method", "Proto", "UserAgent", "RemoteAddr", "RequestID"]

  /** The values the report shows, in the order of PlainLabels; the addresses are joined by commas. */
  function PlainValues(info: JSONResponse): (v: seq<string>)
    ensures |v| == |PlainLabels|
  {
    [info.hostname, Join(info.ip, ","), info.host, info.url, info.httpMethod, info.proto,
     info.userAgent, info.remoteAddr, info.requestID]
  }

  /** The nine lines of the plain report. */
  function PlainLines(info: JSONResponse): seq<string> {
    ["Hostname: " + info.hostname,
     "IP: " + Join(info.ip, ","),
     "Host: " + info.host,
     "URL: " + info.url,
     "Method: " + info.httpMethod,
     "Proto: " + info.proto,
     "UserAgent: " + info.userAgent,
     "RemoteAddr: " + info.remoteAddr,
     "RequestID: " + info.requestID]
  }

  /** WhoamiPlain: the status from the query and the lines joined by newlines. */
  function WhoamiPlain(info: JSONResponse, statusQuery: string): (r: Response)
    ensures r.code == GetStatus(statusQuery)
  {
    Response(GetStatus(statusQuery), Text(Join(PlainLines(info), "\n")))
  }

  /** Line i of the report is label i, a colon and a space, then value i. */
  lemma PlainLinesAreLabelled(info: JSONResponse)
    ensures |PlainLines(info)| == |PlainLabels|
    ensures forall i :: 0 <= i < |PlainLabels| ==>
      PlainLines(info)[i] == PlainLabels[i] + ": " + PlainValues(info)[i]
  {
  }

  predicate NoNewline(s: string) {
    forall j :: 0 <= j < |s| ==> s[j] != '\n'
  }

  /** Whether every value shown is a single line. */
  predicate SingleLineValues(info: JSONResponse) {
    forall i :: 0 <= i < |PlainLabels| ==> NoNewline(PlainValues(info)[i])
  }

  lemma LabelledLineIsSingle(key: string, value: string)
    requires NoNewline(key) && NoNewline(value)
    ensures NoNewline(key + ": " + value)
  {
    var line := key + ": " + value;
    forall j | 0 <= j < |line|
      ensures line[j] != '\n'
    {
      if j < |key| {
        assert line[j] == key[j];
      } else if j >= |key| + 2 {
        assert line[j] == value[j - |key| - 2];
      }
    }
  }

  /**
   * When no value holds a newline, splitting the body at newlines gives back exactly the nine
   * labelled lines: nothing before the first, and no empty line after the last.
   */
  lemma WhoamiPlainLines(info: JSONResponse, statusQuery: string)
    requires SingleLineValues(info)
    ensures WhoamiPlain(info, statusQuery).body.Text?
    ensures Split(WhoamiPlain(info, statusQuery).body.text, '\n') == PlainLines(info)
  {
    var lines := PlainLines(info);
    PlainLinesAreLabelled(info);
    forall i | 0 <= i < |lines|
      ensures NoNewline(lines[i])
    {
      assert NoNewline(PlainLabels[i]);
      LabelledLineIsSingle(PlainLabels[i], PlainValues(info)[i]);
    }
    SplitJoin(lines, '\n');
  }

  /** The IP line lists every address once, in order: splitting it at commas gives the list back. */
  lemma WhoamiPlainAddresses(info: JSONResponse)
    requires |info.ip| >= 1
    requires forall k, j :: 0 <= k < |info.ip| && 0 <= j < |info.ip[k]| ==> info.ip[k][j] != ','
    ensures Split(PlainValues(info)[1], ',') == info.ip
  {
    SplitJoin(info.ip, ',');
  }
}
