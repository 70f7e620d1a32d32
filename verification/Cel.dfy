// CEL certification expressions: parsing, and mapping what was parsed.
module Cel {
  import opened Bytes

  // ---------- Expressions ----------

  datatype ResponseCertification =
    | CertifiedResponseHeaders(headers: seq<string>)
    | ResponseHeaderExclusions(headers: seq<string>)

  datatype RequestCertification = RequestCertification(headers: seq<string>, queryParameters: seq<string>)

  datatype CelExpression =
    | Skip
    | ResponseOnly(response: ResponseCertification)
    | Full(request: RequestCertification, response: ResponseCertification)

  datatype CelValue =
    | Str(s: string)
    | Arr(items: seq<CelValue>)
    | Object(name: string, fields: map<string, CelValue>)
    | Function(name: string, args: seq<CelValue>)

  datatype CelParserError =
    | CelSyntaxException
    | UnexpectedNodeType(nodeName: string, expectedType: string)
    | UnexpectedNodeName(nodeType: string, expectedName: string, foundName: string)
    | MissingFunctionParameter(functionName: string, parameterName: string)
    | MissingObjectProperty(objectName: string, propertyName: string)
    | ExtraneousValidationArgsProperty
    | MissingValidationArgsProperty
    | ExtraneousRequestCertificationProperty
    | MissingRequestCertificationProperty
    | ExtraneousResponseCertificationProperty
    | MissingResponseCertificationProperty

  datatype Result<+T> = Success(value: T) | Fail(error: CelParserError)

  // ---------- Parsing ----------

  // A parser that does not apply gives Error, and an alternative may be tried; one that has
  // committed itself gives Failure.
  datatype Parsed<+T> = Ok(value: T, rest: string) | Error | Failure

  predicate Alphanumeric(c: int) {
    48 <= c <= 57 || 65 <= c <= 90 || 97 <= c <= 122
  }

  // Characters are cut down to a byte before the test.
  predicate IdentChar(c: char) {
    c == '_' || Alphanumeric((c as int) % 256)
  }

  predicate StrChar(c: char) {
    c == '-' || Alphanumeric((c as int) % 256)
  }

  predicate AllStr(s: string) {
    forall k :: 0 <= k < |s| ==> StrChar(s[k])
  }

  // Every string of the value is made of the characters a string literal takes.
  predicate Clean(v: CelValue)
    decreases v
  {
    match v
    case Str(s) => AllStr(s)
    case Arr(items) => forall k :: 0 <= k < |items| ==> Clean(items[k])
    case Object(_, fields) => forall k :: k in fields ==> Clean(fields[k])
    case Function(_, args) => forall k :: 0 <= k < |args| ==> Clean(args[k])
  }

  predicate CleanFields(fields: seq<(string, CelValue)>) {
    forall k :: 0 <= k < |fields| ==> Clean(fields[k].1)
  }

  predicate Space(c: char) {
    c == ' ' || c == '\t' || c == '\r' || c == '\n'
  }

  function SkipSpace(i: string): (r: string)
    ensures |r| <= |i|
  {
    if i != [] && Space(i[0]) then SkipSpace(i[1..]) else i
  }

  function TakeWhile(p: char -> bool, i: string): (r: (string, string))
    ensures r.0 + r.1 == i
    ensures forall k :: 0 <= k < |r.0| ==> p(r.0[k])
  {
    if i != [] && p(i[0]) then
      var (s, rest) := TakeWhile(p, i[1..]);
      ([i[0]] + s, rest)
    else ([], i)
  }

  function Ident(i: string): (r: (string, string))
    ensures |r.1| <= |i|
  {
    TakeWhile(c => IdentChar(c), i)
  }

  // escaped(take_while(..), ..) stops where take_while stops: no escape is ever reached.
  function ParseStr(i: string): (r: (string, string))
    ensures |r.1| <= |i| && AllStr(r.0)
  {
    TakeWhile(c => StrChar(c), i)
  }

  // Optional space, then the character.
  function Separator(c: char, i: string): (r: Option<string>)
    ensures r.Some? ==> |r.value| < |i|
  {
    var s := SkipSpace(i);
    if s != [] && s[0] == c then Some(s[1..]) else None
  }

  // The end of a bracketed part, where there is no way back.
  function Close<T>(c: char, value: T, i: string): (r: Parsed<T>)
    ensures !r.Error? && (r.Ok? ==> |r.rest| < |i|)
  {
    match Separator(c, i)
    case Some(rest) => Ok(value, rest)
    case None => Failure
  }

  function ParseString(i: string): (r: Parsed<CelValue>)
    ensures r.Ok? ==> |r.rest| < |i| && Clean(r.value)
  {
    match Separator('\"', i)
    case None => Error
    case Some(rest) =>
      var (s, rest') := ParseStr(rest);
      Close('\"', Str(s), rest')
  }

  function ParseArray(i: string): (r: Parsed<CelValue>)
    ensures r.Ok? ==> |r.rest| < |i| && Clean(r.value)
    decreases |i|, 2
  {
    match Separator('[', i)
    case None => Error
    case Some(rest) =>
      match ParseValues(rest)
      case Ok(items, rest') => Close(']', Arr(items), rest')
      case _ => Failure
  }

  function ParseFunction(i: string): (r: Parsed<CelValue>)
    ensures r.Ok? ==> |r.rest| < |i| && Clean(r.value)
    decreases |i|, 2
  {
    var (name, rest) := Ident(i);
    match Separator('(', rest)
    case None => Error
    case Some(rest') =>
      match ParseValues(rest')
      case Ok(args, rest'') => Close(')', Function(name, args), rest'')
      case _ => Failure
  }

  function ParseObject(i: string): (r: Parsed<CelValue>)
    ensures r.Ok? ==> |r.rest| < |i| && Clean(r.value)
    decreases |i|, 2
  {
    var (name, rest) := Ident(i);
    match Separator('{', rest)
    case None => Error
    case Some(rest') =>
      match ParseFields(rest')
      case Ok(fields, rest'') => Close('}', Object(name, Collect(fields)), rest'')
      case _ => Failure
  }

  function ParseKeyValue(i: string): (r: Parsed<(string, CelValue)>)
    ensures r.Ok? ==> |r.rest| < |i| && Clean(r.value.1)
    decreases |i|, 4
  {
    var (name, rest) := Ident(SkipSpace(i));
    match Separator(':', rest)
    case None => Error
    case Some(rest') =>
      match ParseCelValue(rest')
      case Ok(v, rest'') => Ok((name, v), rest'')
      case Error => Error
      case Failure => Failure
  }

  function ParseCelValue(i: string): (r: Parsed<CelValue>)
    ensures r.Ok? ==> |r.rest| < |i| && Clean(r.value)
    decreases |i|, 3
  {
    var s := SkipSpace(i);
    match ParseObject(s)
    case Ok(v, rest) => Ok(v, rest)
    case Failure => Failure
    case Error =>
      match ParseFunction(s)
      case Ok(v, rest) => Ok(v, rest)
      case Failure => Failure
      case Error =>
        match ParseArray(s)
        case Ok(v, rest) => Ok(v, rest)
        case Failure => Failure
        case Error => ParseString(s)
  }

  // separated_list0 of values: never Error, and a dangling separator is left unread.
  function ParseValues(i: string): (r: Parsed<seq<CelValue>>)
    ensures !r.Error? && (r.Ok? ==> |r.rest| <= |i| && forall k :: 0 <= k < |r.value| ==> Clean(r.value[k]))
    decreases |i|, 5
  {
    match ParseCelValue(i)
    case Error => Ok([], i)
    case Failure => Failure
    case Ok(v, rest) =>
      match ParseValuesTail(rest)
      case Ok(vs, rest') => Ok([v] + vs, rest')
      case _ => Failure
  }

  function ParseValuesTail(i: string): (r: Parsed<seq<CelValue>>)
    ensures !r.Error? && (r.Ok? ==> |r.rest| <= |i| && forall k :: 0 <= k < |r.value| ==> Clean(r.value[k]))
    decreases |i|, 5
  {
    match Separator(',', i)
    case None => Ok([], i)
    case Some(after) =>
      match ParseCelValue(after)
      case Error => Ok([], i)
      case Failure => Failure
      case Ok(v, rest) =>
        match ParseValuesTail(rest)
        case Ok(vs, rest') => Ok([v] + vs, rest')
        case _ => Failure
  }

  function ParseFields(i: string): (r: Parsed<seq<(string, CelValue)>>)
    ensures !r.Error? && (r.Ok? ==> |r.rest| <= |i| && CleanFields(r.value))
    decreases |i|, 5
  {
    match ParseKeyValue(i)
    case Error => Ok([], i)
    case Failure => Failure
    case Ok(v, rest) =>
      match ParseFieldsTail(rest)
      case Ok(vs, rest') => Ok([v] + vs, rest')
      case _ => Failure
  }

  function ParseFieldsTail(i: string): (r: Parsed<seq<(string, CelValue)>>)
    ensures !r.Error? && (r.Ok? ==> |r.rest| <= |i| && CleanFields(r.value))
    decreases |i|, 5
  {
    match Separator(',', i)
    case None => Ok([], i)
    case Some(after) =>
      match ParseKeyValue(after)
      case Error => Ok([], i)
      case Failure => Failure
      case Ok(v, rest) =>
        match ParseFieldsTail(rest)
        case Ok(vs, rest') => Ok([v] + vs, rest')
        case _ => Failure
  }

  // Of two fields with one name the later stays.
  function Collect(fields: seq<(string, CelValue)>): (m: map<string, CelValue>)
    ensures CleanFields(fields) ==> forall k :: k in m ==> Clean(m[k])
  {
    if fields == [] then map[]
    else
      var last := fields[|fields| - 1];
      Collect(fields[..|fields| - 1])[last.0 := last.1]
  }

  // What follows the value is ignored.
  function ParseCelExpression(i: string): (r: Result<CelValue>)
    ensures r.Success? ==> Clean(r.value)
  {
    match ParseCelValue(i)
    case Ok(v, _) => Success(v)
    case _ => Fail(CelSyntaxException)
  }

  // ---------- Mapping ----------

  function ValidateObject(v: CelValue, name: string): Result<map<string, CelValue>> {
    if !v.Object? then Fail(UnexpectedNodeType(name, "Object"))
    else if v.name != name then Fail(UnexpectedNodeName("Object", name, v.name))
    else Success(v.fields)
  }

  function ValidateFunction(v: CelValue, name: string): Result<seq<CelValue>> {
    if !v.Function? then Fail(UnexpectedNodeType(name, "Function"))
    else if v.name != name then Fail(UnexpectedNodeName("Function", name, v.name))
    else Success(v.args)
  }

  function ValidateStrings(items: seq<CelValue>, name: string): Result<seq<string>> {
    if items == [] then Success([])
    else if !items[0].Str? then Fail(UnexpectedNodeType(name, "String"))
    else
      match ValidateStrings(items[1..], name)
      case Success(rest) => Success([items[0].s] + rest)
      case Fail(e) => Fail(e)
  }

  function ValidateStringArray(v: CelValue, name: string): Result<seq<string>> {
    if !v.Arr? then Fail(UnexpectedNodeType(name, "Array")) else ValidateStrings(v.items, name)
  }

  function StringArrayField(fields: map<string, CelValue>, owner: string, property: string): Result<seq<string>> {
    if property !in fields then Fail(MissingObjectProperty(owner, property))
    else ValidateStringArray(fields[property], property)
  }

  function ValidateRequestCertification(certification: map<string, CelValue>): Result<Option<RequestCertification>> {
    match ("no_request_certification" in certification, "request_certification" in certification)
    case (true, true) => Fail(ExtraneousRequestCertificationProperty)
    case (false, false) => Fail(MissingRequestCertificationProperty)
    case (true, false) => Success(None)
    case (false, true) =>
      match ValidateObject(certification["request_certification"], "RequestCertification")
      case Fail(e) => Fail(e)
      case Success(fields) =>
        match StringArrayField(fields, "RequestCertification", "certified_request_headers")
        case Fail(e) => Fail(e)
        case Success(headers) =>
          match StringArrayField(fields, "RequestCertification", "certified_query_parameters")
          case Fail(e) => Fail(e)
          case Success(parameters) => Success(Some(RequestCertification(headers, parameters)))
  }

  function ResponseHeaders(fields: map<string, CelValue>, property: string): Result<Option<seq<string>>> {
    if property !in fields then Success(None)
    else
      match ValidateObject(fields[property], "ResponseHeaderList")
      case Fail(e) => Fail(e)
      case Success(list) =>
        if "headers" !in list then Success(None)
        else
          match ValidateStringArray(list["headers"], property)
          case Fail(e) => Fail(e)
          case Success(headers) => Success(Some(headers))
  }

  function ValidateResponseCertification(certification: map<string, CelValue>): Result<ResponseCertification> {
    if "response_certification" !in certification then
      Fail(MissingObjectProperty("RequestCertification", "response_certification"))
    else
      match ValidateObject(certification["response_certification"], "ResponseCertification")
      case Fail(e) => Fail(e)
      case Success(fields) =>
        match ResponseHeaders(fields, "certified_response_headers")
        case Fail(e) => Fail(e)
        case Success(certified) =>
          match ResponseHeaders(fields, "response_header_exclusions")
          case Fail(e) => Fail(e)
          case Success(excluded) =>
            match (certified, excluded)
            case (Some(_), Some(_)) => Fail(ExtraneousResponseCertificationProperty)
            case (None, None) => Fail(MissingResponseCertificationProperty)
            case (Some(headers), None) => Success(CertifiedResponseHeaders(headers))
            case (None, Some(headers)) => Success(ResponseHeaderExclusions(headers))
  }

  function MapCelAst(v: CelValue): Result<CelExpression> {
    match ValidateFunction(v, "default_certification")
    case Fail(e) => Fail(e)
    case Success(args) =>
      if args == [] then Fail(MissingFunctionParameter("default_certification", "ValidationArgs"))
      else
        match ValidateObject(args[0], "ValidationArgs")
        case Fail(e) => Fail(e)
        case Success(fields) =>
          match ("no_certification" in fields, "certification" in fields)
          case (true, true) => Fail(ExtraneousValidationArgsProperty)
          case (false, false) => Fail(MissingValidationArgsProperty)
          case (true, false) => Success(Skip)
          case (false, true) =>
            match ValidateObject(fields["certification"], "Certification")
            case Fail(e) => Fail(e)
            case Success(certification) =>
              match ValidateRequestCertification(certification)
              case Fail(e) => Fail(e)
              case Success(request) =>
                match ValidateResponseCertification(certification)
                case Fail(e) => Fail(e)
                case Success(response) =>
                  if request.None? then Success(ResponseOnly(response)) else Success(Full(request.value, response))
  }

  function ReadCelExpression(text: string): Result<CelExpression> {
    match ParseCelExpression(text)
    case Fail(e) => Fail(e)
    case Success(v) => MapCelAst(v)
  }
}
