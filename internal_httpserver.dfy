/**
 * The chi-based server under internal/httpserver: the data size units and the resolution of the
 * size and unit query parameters of /data, the access-log path filter, and the settable status
 * behind /health.
 */
module InternalHttpServer {
  import opened Wrappers
  import opened GoInt
  import opened Strconv
  import opened Strings
  import opened Http

  function Pow2(e: nat): (r: nat)
    ensures r >= 1
  {
    if e == 0 then 1 else 2 * Pow2(e - 1)
  }

  function Pow(b: nat, e: nat): nat {
    if e == 0 then 1 else b * Pow(b, e - 1)
  }

  /** The data size unit declared at position iota of the constant block: 1 << (10 * iota). */
  function SizeUnit(iota: nat): (r: nat)
    ensures r >= 1
  {
    Pow2(10 * iota)
  }

  const KB: int := SizeUnit(1)
  const MB: int := SizeUnit(2)
  const GB: int := SizeUnit(3)
  const TB: int := SizeUnit(4)

  lemma {:induction false} Pow2Add(a: nat, b: nat)
    ensures Pow2(a + b) == Pow2(a) * Pow2(b)
    decreases a
  {
    if a > 0 {
      Pow2Add(a - 1, b);
    }
  }

  /** The unit at position iota is 1024 to the power iota. */
  lemma {:induction false} SizeUnitIsPowerOf1024(iota: nat)
    ensures SizeUnit(iota) == Pow(1024, iota)
  {
    if iota > 0 {
      SizeUnitIsPowerOf1024(iota - 1);
      Pow2Add(10 * (iota - 1), 10);
      assert Pow2(10) == 1024;
    }
  }

  /** Each unit is 1024 times the one before, and the largest fits in an int64. */
  lemma SizeUnits()
    ensures KB == 1024 && MB == 1024 * KB && GB == 1024 * MB && TB == 1024 * GB
    ensures TB <= MaxInt64
  {
    SizeUnitIsPowerOf1024(1);
    SizeUnitIsPowerOf1024(2);
    SizeUnitIsPowerOf1024(3);
    SizeUnitIsPowerOf1024(4);
  }

  /** The factor the unit switch applies to a lower-cased unit; "b" and unknown units change nothing. */
  function UnitFactor(unit: string): (m: int)
    ensures m >= 1
  {
    if unit == "kb" then KB
    else if unit == "mb" then MB
    else if unit == "gb" then GB
    else if unit == "tb" then TB
    else 1
  }

  /** The factor for an optional unit parameter. */
  function Factor(unit: Option<string>): (m: int)
    ensures m >= 1
  {
    match unit
    case None => 1
    case Some(u) => UnitFactor(ToLower(u))
  }

  datatype SizeError = InvalidSize | ZeroSize

  /** The unit step: dataSize *= KB .. TB in int64 arithmetic, when a unit parameter is present. */
  function ApplyUnit(count: Int64, unit: Option<string>): (r: Int64)
    ensures (r - count * Factor(unit)) % Modulus64 == 0
    ensures MinInt64 <= count * Factor(unit) <= MaxInt64 ==> r == count * Factor(unit)
  {
    match unit
    case None => count
    case Some(u) => Wrap64(count * UnitFactor(ToLower(u)))
  }

  /** The count the request asks for: the parsed size (1 when absent), without its sign. */
  function RequestedCount(size: Option<string>): int {
    match size
    case None => 1
    case Some(s) => if ParseInt(s).Some? then Abs(ParseInt(s).value) else 0
  }

  /**
   * The size step of dataHandler: 1 when the parameter is absent, otherwise the parsed value
   * with its sign dropped by dataSize *= -1, or the error it answers 400 with.
   */
  function SizeParameter(size: Option<string>): (r: Result<Int64, SizeError>)
    ensures r == Failure(InvalidSize) <==> size.Some? && ParseInt(size.value).None?
    ensures r == Failure(ZeroSize) <==> size.Some? && ParseInt(size.value) == Some(0)
    ensures r.Success? ==> r.value == Wrap64(RequestedCount(size))
  {
    match size
    case None => Success(1)
    case Some(s) =>
      match ParseInt(s)
      case None => Failure(InvalidSize)
      case Some(v) =>
        if v < 0 then Success(Wrap64(v as int * -1))
        else if v == 0 then Failure(ZeroSize)
        else Success(v)
  }

  /** The byte count dataHandler hands to the content reader, from its size and unit query parameters (None when absent). */
  function ResolveSize(size: Option<string>, unit: Option<string>): (r: Result<Int64, SizeError>)
    ensures r.Failure? <==> SizeParameter(size).Failure?
    ensures r.Failure? ==> r == SizeParameter(size)
  {
    match SizeParameter(size)
    case Failure(e) => Failure(e)
    case Success(n) => Success(ApplyUnit(n, unit))
  }

  /**
   * A size that parses to a nonzero value is accepted, and the count is its magnitude times the
   * unit, reduced to int64 the way Go's arithmetic does: exactly that product when it fits.
   */
  lemma ResolveSizeValue(size: Option<string>, unit: Option<string>)
    requires size.Some? ==> ParseInt(size.value).Some? && ParseInt(size.value).value != 0
    ensures var exact := RequestedCount(size) * Factor(unit);
      var r := ResolveSize(size, unit);
      r.Success? && (r.value - exact) % Modulus64 == 0 && (exact <= MaxInt64 ==> r.value == exact)
  {
    var f := Factor(unit);
    var magnitude := RequestedCount(size);
    var n := SizeParameter(size).value;
    var r := ApplyUnit(n, unit);
    assert ResolveSize(size, unit) == Success(r);
    assert (n - magnitude) % Modulus64 == 0;
    CongruentTimes(n, magnitude, f);
    CongruentTrans(r, n * f, magnitude * f);
    if magnitude * f <= MaxInt64 {
      AtMostMultiple(magnitude, f);
      assert n == magnitude;
    }
  }

  lemma AtMostMultiple(a: nat, f: int)
    requires f >= 1
    ensures a <= a * f
  {
  }

  lemma CongruentTimes(a: int, b: int, f: int)
    requires (a - b) % Modulus64 == 0
    ensures (a * f - b * f) % Modulus64 == 0
  {
    var q := (a - b) / Modulus64;
    assert a - b == Modulus64 * q;
    assert a * f - b * f == Modulus64 * (q * f);
  }

  lemma CongruentTrans(a: int, b: int, c: int)
    requires (a - b) % Modulus64 == 0 && (b - c) % Modulus64 == 0
    ensures (a - c) % Modulus64 == 0
  {
    var p := (a - b) / Modulus64;
    var q := (b - c) / Modulus64;
    assert a - c == Modulus64 * (p + q);
  }

  /** The sign of the size parameter is ignored: -v and v resolve alike (int64's minimum has no positive twin). */
  lemma ResolveSizeIgnoresSign(v: Int64, unit: Option<string>)
    requires v != MinInt64
    ensures ResolveSize(Some(FormatInt(-v)), unit) == ResolveSize(Some(FormatInt(v)), unit)
  {
    ParseIntFormat(v);
    ParseIntFormat(-v);
  }

  /** The unit is matched without regard to case. */
  lemma UnitIsCaseInsensitive(size: Option<string>, unit: string)
    ensures ResolveSize(size, Some(unit)) == ResolveSize(size, Some(ToLower(unit)))
  {
    ToLowerIdempotent(unit);
  }

  /** With no parameters one byte is served; a unit alone scales that byte. */
  lemma ResolveSizeDefaults()
    ensures ResolveSize(None, None) == Success(1)
    ensures ResolveSize(None, Some("KB")) == Success(1024)
  {
    SizeUnits();
    assert ToLower("KB") == "kb";
  }

  /** A negative size with a mixed-case unit, and an unknown unit, which leaves the count alone. */
  lemma ResolveSizeUnitExamples()
    ensures ResolveSize(Some("-2"), Some("Mb")) == Success(2 * 1024 * 1024)
    ensures ResolveSize(Some("3"), Some("bytes")) == Success(3)
  {
    SizeUnits();
    assert ToLower("Mb") == "mb";
    assert ParseInt("-2") == Some(-2);
    assert ParseInt("3") == Some(3);
  }

  /** int64 arithmetic wraps: 2^24 TB becomes 0, after the zero check has passed. */
  lemma ResolveSizeWrapsToZero()
    ensures ResolveSize(Some(FormatInt(16777216)), Some("tb")) == Success(0)
  {
    SizeUnits();
    assert ToLower("tb") == "tb";
    ParseIntFormat(16777216);
  }

  /** int64 arithmetic wraps: the most negative size keeps its sign. */
  lemma ResolveSizeKeepsMinimum()
    ensures ResolveSize(Some(FormatInt(MinInt64)), None) == Success(MinInt64)
  {
    ParseIntFormat(MinInt64);
    assert SizeParameter(Some(FormatInt(MinInt64))) == Success(Wrap64(MinInt64 * -1));
    assert Wrap64(MinInt64 * -1) == MinInt64;
  }

  /** skipURLPath: whether some entry of pathExcludes is a prefix of path. */
  function SkipURLPath(path: string, pathExcludes: seq<string>): (skip: bool)
    ensures skip <==> exists i :: 0 <= i < |pathExcludes| && HasPrefix(path, pathExcludes[i])
  {
    if pathExcludes == [] then false
    else HasPrefix(path, pathExcludes[0]) || SkipURLPath(path, pathExcludes[1..])
  }

  /** The body GET /health writes: {"status":N}. */
  function HealthBody(status: int): string {
    "{\"status\":" + FormatInt(status) + "}"
  }

  /** The status can be read back from the body: it sits, in decimal, between the key and the closing brace. */
  lemma HealthBodyCarriesStatus(status: Int64)
    ensures var b := HealthBody(status);
      |b| > 11 && b[..10] == "{\"status\":" && b[|b| - 1] == '}' && ParseInt(b[10..|b| - 1]) == Some(status)
  {
    var b := HealthBody(status);
    assert b[10..|b| - 1] == FormatInt(status);
    ParseIntFormat(status);
  }

  /** Whether a POST body carries a code the handler accepts, one in [100, 599]. */
  predicate AcceptedCode(body: BodyRead) {
    body.Received? && ParseInt(body.content).Some? && 100 <= ParseInt(body.content).value <= 599
  }

  /**
   * POST /health: a body that cannot be read is a 500; an empty body, one that is not an
   * integer, or an integer outside [100, 599] is a 400 that keeps the status; an accepted code
   * becomes the status and the reply is 202.
   */
  function HealthPost(status: int, body: BodyRead): (o: PostOutcome)
    ensures o.reply.code == StatusInternalServerError <==> body.ReadFailed?
    ensures o.reply.code == StatusAccepted <==> AcceptedCode(body)
    ensures o.reply.code == StatusBadRequest <==> body.Received? && !AcceptedCode(body)
    ensures o.status == if AcceptedCode(body) then ParseInt(body.content).value else status
  {
    match body
    case ReadFailed(message) => PostOutcome(Response(StatusInternalServerError, Text(message + "\n")), status)
    case Received(content) =>
      if |content| == 0 then
        PostOutcome(Response(StatusBadRequest, Text("post request payload required\n")), status)
      else
        match ParseInt(content)
        case None => PostOutcome(Response(StatusBadRequest, ParseErrorText(content)), status)
        case Some(code) =>
          if code < 100 || code > 599 then
            PostOutcome(Response(StatusBadRequest, Text("invalid status code: " + FormatInt(code) + "\n")), status)
          else PostOutcome(Response(StatusAccepted, Text("")), code)
  }

  /** Posting the decimal form of a code in [100, 599] is accepted and sets exactly that code. */
  lemma HealthPostFormatted(status: int, code: Int64)
    requires 100 <= code <= 599
    ensures HealthPost(status, Received(FormatInt(code))) == PostOutcome(Response(StatusAccepted, Text("")), code)
  {
    ParseIntFormat(code);
  }

  /** healthStatus: the code /health answers with, changed by POST. */
  class HealthState {
    var status: int

    ghost predicate Valid()
      reads this
    {
      100 <= status <= 599
    }

    constructor ()
      ensures Valid() && status == StatusOK
    {
      status := StatusOK;
    }

    /** Every method but POST: the status as the reply code and, as JSON, in the body. */
    method Get() returns (r: Response)
      requires Valid()
      ensures r.code == status && r.body == Text(HealthBody(status))
    {
      r := Response(status, Text(HealthBody(status)));
    }

    method Post(body: BodyRead) returns (r: Response)
      requires Valid()
      modifies this
      ensures Valid()
      ensures r == HealthPost(old(status), body).reply
      ensures status == HealthPost(old(status), body).status
    {
      match body {
        case ReadFailed(message) =>
          return Response(StatusInternalServerError, Text(message + "\n"));
        case Received(content) =>
          if |content| == 0 {
            return Response(StatusBadRequest, Text("post request payload required\n"));
          }
          var parsed := ParseInt(content);
          if parsed.None? {
            return Response(StatusBadRequest, ParseErrorText(content));
          }
          var code := parsed.value;
          if code < 100 || code > 599 {
            return Response(StatusBadRequest, Text("invalid status code: " + FormatInt(code) + "\n"));
          }
          status := code;
          r := Response(StatusAccepted, Text(""));
      }
    }

    /** healthHandler: POST sets the status, every other method reads it. */
    method Handle(httpMethod: string, body: BodyRead) returns (r: Response)
      requires Valid()
      modifies this
      ensures Valid()
      ensures httpMethod == "POST" ==>
        r == HealthPost(old(status), body).reply && status == HealthPost(old(status), body).status
      ensures httpMethod != "POST" ==>
        r == Response(old(status), Text(HealthBody(old(status)))) && status == old(status)
    {
      if httpMethod == "POST" {
        r := Post(body);
      } else {
        r := Get();
      }
    }
  }

  /** A fresh server answers 200; after a POST of code it answers code, with code in the body. */
  method PostThenGet(code: Int64) returns (initial: Response, posted: Response, after: Response)
    requires 100 <= code <= 599
    ensures initial == Response(StatusOK, Text(HealthBody(StatusOK)))
    ensures posted == Response(StatusAccepted, Text(""))
    ensures after == Response(code, Text(HealthBody(code)))
  {
    var health := new HealthState();
    initial := health.Get();
    HealthPostFormatted(health.status, code);
    posted := health.Post(Received(FormatInt(code)));
    after := health.Get();
  }
}
