/** The echo-based server under httpserver: the settable status behind /healthz and the request logger's skipper. */
module HttpServer {
  import opened Wrappers
  import opened GoInt
  import opened Strconv
  import opened Strings
  import opened Http
  import InternalHttpServer

  /** The logger's Skipper: whether some entry of logURLExcludes is a prefix of the route path. */
  function Skipper(logURLExcludes: seq<string>, routePath: string): (skip: bool)
    ensures skip <==> exists i :: 0 <= i < |logURLExcludes| && HasPrefix(routePath, logURLExcludes[i])
  {
    InternalHttpServer.SkipURLPath(routePath, logURLExcludes)
  }

  /** The body GET /healthz writes: {"status":"N"}, the code as a JSON string. */
  function HealthzBody(status: int): string {
    "{\"status\":\"" + FormatInt(status) + "\"}"
  }

  /** The status can be read back from the body: it sits, in decimal, between the quotes after the key. */
  lemma HealthzBodyCarriesStatus(status: Int64)
    ensures var b := HealthzBody(status);
      |b| > 13 && b[..11] == "{\"status\":\"" && b[|b| - 2..] == "\"}" && ParseInt(b[11..|b| - 2]) == Some(status)
  {
    var b := HealthzBody(status);
    assert b[11..|b| - 2] == FormatInt(status);
    ParseIntFormat(status);
  }

  const ContentError: string := "Wrong POST request content or empty body"
  const CodeError: string := "Wrong http status code"

  /** Whether a POST body carries a code the handler accepts, one in [200, 599]. */
  predicate AcceptedCode(body: BodyRead) {
    body.Received? && ParseInt(body.content).Some? && 200 <= ParseInt(body.content).value <= 599
  }

  /**
   * POST /healthz: every rejection is a 400 that keeps the status, with one message for a body
   * that cannot be read or is empty and another for one that is not a code in [200, 599]; an
   * accepted code becomes the status and the reply is 204 with no body.
   */
  function HealthzPost(status: int, body: BodyRead): (o: PostOutcome)
    ensures o.reply.code == StatusNoContent <==> AcceptedCode(body)
    ensures o.reply.code == StatusBadRequest <==> !AcceptedCode(body)
    ensures o.status == if AcceptedCode(body) then ParseInt(body.content).value else status
    ensures body.ReadFailed? || body == Received("") ==> o.reply.body == Text(ContentError)
    ensures body.Received? && body.content != "" && !AcceptedCode(body) ==> o.reply.body == Text(CodeError)
  {
    if body.ReadFailed? || |body.content| == 0 then
      PostOutcome(Response(StatusBadRequest, Text(ContentError)), status)
    else
      match ParseInt(body.content)
      case None => PostOutcome(Response(StatusBadRequest, Text(CodeError)), status)
      case Some(code) =>
        if code < 200 || code > 599 then PostOutcome(Response(StatusBadRequest, Text(CodeError)), status)
        else PostOutcome(Response(StatusNoContent, Text("")), code)
  }

  /** Posting the decimal form of a code in [200, 599] is accepted and sets exactly that code. */
  lemma HealthzPostFormatted(status: int, code: Int64)
    requires 200 <= code <= 599
    ensures HealthzPost(status, Received(FormatInt(code))) == PostOutcome(Response(StatusNoContent, Text("")), code)
  {
    ParseIntFormat(code);
  }

  /** healthzStatus: the code /healthz answers with, changed by POST. */
  class HealthzState {
    var status: int

    ghost predicate Valid()
      reads this
    {
      200 <= status <= 599
    }

    constructor ()
      ensures Valid() && status == StatusOK
    {
      status := StatusOK;
    }

    /** GET /healthz: the status as the reply code and, as a JSON string, in the body. */
    method Get() returns (r: Response)
      requires Valid()
      ensures r.code == status && r.body == Text(HealthzBody(status))
    {
      r := Response(status, Text(HealthzBody(status)));
    }

    /** POST /healthz. */
    method Post(body: BodyRead) returns (r: Response)
      requires Valid()
      modifies this
      ensures Valid()
      ensures r == HealthzPost(old(status), body).reply
      ensures status == HealthzPost(old(status), body).status
    {
      if body.ReadFailed? || |body.content| == 0 {
        return Response(StatusBadRequest, Text(ContentError));
      }
      var parsed := ParseInt(body.content);
      if parsed.None? || parsed.value < 200 || parsed.value > 599 {
        return Response(StatusBadRequest, Text(CodeError));
      }
      status := parsed.value;
      r := Response(StatusNoContent, Text(""));
    }
  }

  /** A fresh server answers 200; a rejected POST leaves that alone; after a POST of code it answers code. */
  method PostThenGet(code: Int64, rejected: BodyRead) returns (initial: Response, refused: Response, after: Response)
    requires 200 <= code <= 599 && !AcceptedCode(rejected)
    ensures initial == Response(StatusOK, Text(HealthzBody(StatusOK)))
    ensures refused.code == StatusBadRequest
    ensures after == Response(code, Text(HealthzBody(code)))
  {
    var health := new HealthzState();
    initial := health.Get();
    refused := health.Post(rejected);
    HealthzPostFormatted(health.status, code);
    var accepted := health.Post(Received(FormatInt(code)));
    after := health.Get();
  }
}
