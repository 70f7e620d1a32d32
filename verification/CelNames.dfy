// What becomes of header and parameter names between printing and reading.
module CelNames {
  import opened Bytes
  import opened Cel
  import opened CelText
  import opened CelPrinters
  import opened CelMapping

  // ---------- Round trip ----------

  predicate AllPrintable(names: seq<string>) {
    forall k :: 0 <= k < |names| ==> AllStr(names[k])
  }

  // Every header and query parameter name can be spelled in a string literal.
  predicate Printable(c: CelExpression) {
    match c
    case Skip => true
    case ResponseOnly(response) => AllPrintable(response.headers)
    case Full(request, response) =>
      AllPrintable(request.headers) && AllPrintable(request.queryParameters) && AllPrintable(response.headers)
  }

  lemma {:induction false} StringsComeBack(names: seq<string>, property: string)
    ensures ValidateStrings(ValuesOf(StrTerms(names)), property) == Success(names)
  {
    if names != [] {
      StringsComeBack(names[1..], property);
      assert StrTerms(names)[1..] == StrTerms(names[1..]);
      assert ValuesOf(StrTerms(names)) == [Str(names[0])] + ValuesOf(StrTerms(names[1..]));
      assert ValuesOf(StrTerms(names))[1..] == ValuesOf(StrTerms(names[1..]));
      assert [names[0]] + names[1..] == names;
    }
  }

  lemma OnePair(f: Field)
    ensures Collect(PairsOf([f])) == map[f.name := ValueOf(f.value)]
  {
    var pairs := PairsOf([f]);
    assert PairsOf([f][1..]) == [];
    assert pairs[..|pairs| - 1] == [];
    assert Collect([]) == map[];
  }

  lemma TwoPairs(f: Field, g: Field)
    ensures Collect(PairsOf([f, g])) == map[f.name := ValueOf(f.value)][g.name := ValueOf(g.value)]
  {
    var p, q := (f.name, ValueOf(f.value)), (g.name, ValueOf(g.value));
    assert [f, g][1..] == [g] && [g][1..] == [];
    assert PairsOf([g]) == [q];
    var pairs := PairsOf([f, g]);
    assert pairs == [p, q];
    assert [p, q][..1] == [p];
    OnePair(f);
    assert PairsOf([f]) == [p];
    assert Collect([p, q]) == Collect([p])[q.0 := q.1];
  }

  lemma RequestComesBack(request: RequestCertification, certification: map<string, CelValue>)
    requires "no_request_certification" !in certification && "request_certification" in certification
    requires certification["request_certification"] == ValueOf(RequestField(request).value)
    ensures ValidateRequestCertification(certification) == Success(Some(request))
  {
    hide Collect;
    TwoPairs(Field("certified_request_headers", TArr(StrTerms(request.headers))),
             Field("certified_query_parameters", TArr(StrTerms(request.queryParameters))));
    StringsComeBack(request.headers, "certified_request_headers");
    StringsComeBack(request.queryParameters, "certified_query_parameters");
    assert |"certified_request_headers"| != |"certified_query_parameters"|;
  }

  lemma HeadersComeBack(names: seq<string>, kind: string, fields: map<string, CelValue>)
    requires kind in fields
      && fields[kind] == ValueOf(TObject("ResponseHeaderList", [Field("headers", TArr(StrTerms(names)))]))
    ensures ResponseHeaders(fields, kind) == Success(Some(names))
  {
    hide Collect;
    OnePair(Field("headers", TArr(StrTerms(names))));
    StringsComeBack(names, kind);
  }

  lemma ResponseComesBack(response: ResponseCertification, certification: map<string, CelValue>)
    requires "response_certification" in certification
    requires certification["response_certification"] == ValueOf(ResponseField(response).value)
    ensures ValidateResponseCertification(certification) == Success(response)
  {
    hide Collect, ResponseHeaders, StrTerms;
    var kind := Kind(response);
    var list := TObject("ResponseHeaderList", [Field("headers", TArr(StrTerms(response.headers)))]);
    OnePair(Field(kind, list));
    var fields := map[kind := ValueOf(list)];
    HeadersComeBack(response.headers, kind, fields);
    assert "certified_response_headers"[0] != "response_header_exclusions"[0];
    MissingHeaders(fields, "certified_response_headers");
    MissingHeaders(fields, "response_header_exclusions");
  }

  lemma MissingHeaders(fields: map<string, CelValue>, property: string)
    ensures property !in fields ==> ResponseHeaders(fields, property) == Success(None)
  {
  }

  lemma ArgsComeBack(c: CelExpression, fields: map<string, CelValue>)
    requires fields == map[ArgsField(c).name := ValueOf(ArgsField(c).value)]
    ensures MapCelAst(Function("default_certification", [Object("ValidationArgs", fields)])) == Success(c)
  {
    hide Collect, ValidateRequestCertification, ValidateResponseCertification, RequestField, ResponseField;
    assert |"no_certification"| != |"certification"|;
    match c {
      case Skip =>
      case ResponseOnly(response) =>
        var f, g := EmptyField("no_request_certification"), ResponseField(response);
        NamesDiffer(response);
        TwoPairs(f, g);
        var certification := map[f.name := ValueOf(f.value)][g.name := ValueOf(g.value)];
        NoRequest(certification);
        ResponseComesBack(response, certification);
      case Full(request, response) =>
        var f, g := RequestField(request), ResponseField(response);
        NamesDiffer(response);
        assert f.name == "request_certification" by { RequestName(request); }
        TwoPairs(f, g);
        var certification := map[f.name := ValueOf(f.value)][g.name := ValueOf(g.value)];
        RequestComesBack(request, certification);
        ResponseComesBack(response, certification);
    }
  }

  lemma RequestName(request: RequestCertification)
    ensures RequestField(request).name == "request_certification"
  {
  }

  lemma NamesDiffer(response: ResponseCertification)
    ensures ResponseField(response).name == "response_certification"
    ensures |"response_certification"| == 22 && |"request_certification"| == 21 && |"no_request_certification"| == 24
  {
  }

  lemma NoRequest(certification: map<string, CelValue>)
    requires "no_request_certification" in certification && "request_certification" !in certification
    ensures ValidateRequestCertification(certification) == Success(None)
  {
  }

  // map_cel_ast undoes the structure the printers spell out, whatever the names are.
  lemma MappingInverts(c: CelExpression)
    ensures MapCelAst(ValueOf(TermOf(c))) == Success(c)
  {
    hide MapCelAst, Collect;
    var f := ArgsField(c);
    var args := TObject("ValidationArgs", [f]);
    OnePair(f);
    assert ValuesOf([args][1..]) == [];
    assert ValuesOf([args]) == [ValueOf(args)];
    ArgsComeBack(c, map[f.name := ValueOf(f.value)]);
  }

  predicate Letters(s: string) {
    forall k :: 0 <= k < |s| ==> 'a' <= s[k] <= 'z' || 'A' <= s[k] <= 'Z' || s[k] == '_'
  }

  lemma LettersIdent(s: string)
    requires Letters(s)
    ensures AllIdent(s)
  {
  }

  // Field and object names of the printers are identifiers.
  lemma CertificationIdentifiers()
    ensures AllIdent("certification") && AllIdent("Certification")
  {
    hide AllIdent;
    assert AllIdent("certification") by { LettersIdent("certification"); }
    assert AllIdent("Certification") by { LettersIdent("Certification"); }
  }

  lemma ExpressionIdentifiers()
    ensures AllIdent("default_certification") && AllIdent("ValidationArgs")
  {
    hide AllIdent;
    assert AllIdent("default_certification") by { LettersIdent("default_certification"); }
    assert AllIdent("ValidationArgs") by { LettersIdent("ValidationArgs"); }
  }

  lemma EmptyIdentifiers()
    ensures AllIdent("no_certification") && AllIdent("no_request_certification") && AllIdent("Empty")
  {
    hide AllIdent;
    assert AllIdent("no_certification") by { LettersIdent("no_certification"); }
    assert AllIdent("no_request_certification") by { LettersIdent("no_request_certification"); }
    assert AllIdent("Empty") by { LettersIdent("Empty"); }
  }

  lemma RequestIdentifiers()
    ensures AllIdent("request_certification") && AllIdent("RequestCertification")
  {
    hide AllIdent;
    assert AllIdent("request_certification") by { LettersIdent("request_certification"); }
    assert AllIdent("RequestCertification") by { LettersIdent("RequestCertification"); }
  }

  lemma RequestListIdentifiers()
    ensures AllIdent("certified_request_headers") && AllIdent("certified_query_parameters")
  {
    hide AllIdent;
    assert AllIdent("certified_request_headers") by { LettersIdent("certified_request_headers"); }
    assert AllIdent("certified_query_parameters") by { LettersIdent("certified_query_parameters"); }
  }

  lemma ResponseIdentifiers()
    ensures AllIdent("response_certification") && AllIdent("ResponseCertification")
  {
    hide AllIdent;
    assert AllIdent("response_certification") by { LettersIdent("response_certification"); }
    assert AllIdent("ResponseCertification") by { LettersIdent("ResponseCertification"); }
  }

  lemma ResponseKindIdentifiers()
    ensures AllIdent("certified_response_headers") && AllIdent("response_header_exclusions")
  {
    hide AllIdent;
    assert AllIdent("certified_response_headers") by { LettersIdent("certified_response_headers"); }
    assert AllIdent("response_header_exclusions") by { LettersIdent("response_header_exclusions"); }
  }

  lemma ResponseListIdentifiers()
    ensures AllIdent("ResponseHeaderList") && AllIdent("headers")
  {
    hide AllIdent;
    assert AllIdent("ResponseHeaderList") by { LettersIdent("ResponseHeaderList"); }
    assert AllIdent("headers") by { LettersIdent("headers"); }
  }

  // ---------- Names without quotes ----------

  predicate QuoteFree(names: seq<string>) {
    forall k :: 0 <= k < |names| ==> '\"' !in names[k]
  }

  predicate AllQuoteFree(c: CelExpression) {
    match c
    case Skip => true
    case ResponseOnly(response) => QuoteFree(response.headers)
    case Full(request, response) =>
      QuoteFree(request.headers) && QuoteFree(request.queryParameters) && QuoteFree(response.headers)
  }

  predicate ReadableNames(names: seq<string>) {
    forall k :: 0 <= k < |names| ==> Readable(names[k])
  }

  predicate AllReadable(c: CelExpression) {
    match c
    case Skip => true
    case ResponseOnly(response) => ReadableNames(response.headers)
    case Full(request, response) =>
      ReadableNames(request.headers) && ReadableNames(request.queryParameters) && ReadableNames(response.headers)
  }

  function TrimNames(names: seq<string>): (r: seq<string>)
    ensures |r| == |names| && forall k :: 0 <= k < |names| ==> r[k] == Literal(names[k])
  {
    if names == [] then [] else [Literal(names[0])] + TrimNames(names[1..])
  }

  function TrimRequest(request: RequestCertification): RequestCertification {
    RequestCertification(TrimNames(request.headers), TrimNames(request.queryParameters))
  }

  function TrimResponse(response: ResponseCertification): ResponseCertification {
    response.(headers := TrimNames(response.headers))
  }

  // The expression with every name cut down to its literal.
  function Trimmed(c: CelExpression): CelExpression {
    match c
    case Skip => Skip
    case ResponseOnly(response) => ResponseOnly(TrimResponse(response))
    case Full(request, response) => Full(TrimRequest(request), TrimResponse(response))
  }

  lemma {:induction false} NameTerms(names: seq<string>)
    ensures DelimitedItems(StrTerms(names)) <==> QuoteFree(names)
    ensures LegibleItems(StrTerms(names)) <==> ReadableNames(names)
    ensures TrimItems(StrTerms(names)) == StrTerms(TrimNames(names))
  {
    hide Readable, Literal, QuoteFree, ReadableNames;
    NamesSplit(names);
    if names != [] {
      NameTerms(names[1..]);
      assert StrTerms(names)[1..] == StrTerms(names[1..]);
      assert TrimNames(names)[1..] == TrimNames(names[1..]);
    }
  }

  lemma NamesSplit(names: seq<string>)
    ensures QuoteFree(names) <==> names == [] || ('\"' !in names[0] && QuoteFree(names[1..]))
    ensures ReadableNames(names) <==> names == [] || (Readable(names[0]) && ReadableNames(names[1..]))
  {
    hide Readable;
    assert names != [] ==> names == [names[0]] + names[1..];
  }

  lemma OneField(name: string, f: Field)
    requires AllIdent(name) && AllIdent(f.name)
    ensures Delimited(TObject(name, [f])) <==> Delimited(f.value)
    ensures Legible(TObject(name, [f])) <==> Legible(f.value)
    ensures Trim(TObject(name, [f])) == TObject(name, [Field(f.name, Trim(f.value))])
  {
    hide AllIdent;
    assert [f][1..] == [];
    assert DelimitedFields([]) && LegibleFields([]) && TrimFields([]) == [];
  }

  lemma TwoFields(name: string, f: Field, g: Field)
    requires AllIdent(name) && AllIdent(f.name) && AllIdent(g.name)
    ensures Delimited(TObject(name, [f, g])) <==> Delimited(f.value) && Delimited(g.value)
    ensures Legible(TObject(name, [f, g])) <==> Legible(f.value) && Legible(g.value)
    ensures Trim(TObject(name, [f, g])) == TObject(name, [Field(f.name, Trim(f.value)), Field(g.name, Trim(g.value))])
  {
    hide AllIdent;
    OneField(name, g);
    assert [f, g][1..] == [g];
  }

  lemma ListField(name: string, f: string, names: seq<string>)
    requires AllIdent(name) && AllIdent(f)
    ensures var list := TObject(name, [Field(f, TArr(StrTerms(names)))]);
      && (Delimited(list) <==> QuoteFree(names)) && (Legible(list) <==> ReadableNames(names))
      && Trim(list) == TObject(name, [Field(f, TArr(StrTerms(TrimNames(names))))])
  {
    hide AllIdent, QuoteFree, ReadableNames;
    NameTerms(names);
    OneField(name, Field(f, TArr(StrTerms(names))));
  }

  lemma TrimmedRequest(request: RequestCertification)
    ensures var f := RequestField(request);
      && AllIdent(f.name)
      && (Delimited(f.value) <==> QuoteFree(request.headers) && QuoteFree(request.queryParameters))
      && (Legible(f.value) <==> ReadableNames(request.headers) && ReadableNames(request.queryParameters))
      && RequestField(TrimRequest(request)) == Field(f.name, Trim(f.value))
  {
    hide AllIdent, QuoteFree, ReadableNames;
    RequestIdentifiers();
    RequestListIdentifiers();
    NameTerms(request.headers);
    NameTerms(request.queryParameters);
    TwoFields("RequestCertification", Field("certified_request_headers", TArr(StrTerms(request.headers))),
              Field("certified_query_parameters", TArr(StrTerms(request.queryParameters))));
  }

  lemma TrimmedResponse(response: ResponseCertification)
    ensures var f := ResponseField(response);
      && AllIdent(f.name)
      && (Delimited(f.value) <==> QuoteFree(response.headers))
      && (Legible(f.value) <==> ReadableNames(response.headers))
      && ResponseField(TrimResponse(response)) == Field(f.name, Trim(f.value))
  {
    hide AllIdent, QuoteFree, ReadableNames;
    ResponseIdentifiers();
    ResponseKindIdentifiers();
    ResponseListIdentifiers();
    ListField("ResponseHeaderList", "headers", response.headers);
    var list := TObject("ResponseHeaderList", [Field("headers", TArr(StrTerms(response.headers)))]);
    OneField("ResponseCertification", Field(Kind(response), list));
  }

  lemma TrimmedEmpty(name: string)
    requires name in {"no_certification", "no_request_certification"}
    ensures var f := EmptyField(name);
      AllIdent(f.name) && Delimited(f.value) && Legible(f.value) && Trim(f.value) == f.value
  {
    hide AllIdent;
    EmptyIdentifiers();
    assert DelimitedFields([]) && LegibleFields([]) && TrimFields([]) == [];
  }

  lemma TrimmedArgs(c: CelExpression)
    ensures var f := ArgsField(c);
      && AllIdent(f.name) && (Delimited(f.value) <==> AllQuoteFree(c)) && (Legible(f.value) <==> AllReadable(c))
      && ArgsField(Trimmed(c)) == Field(f.name, Trim(f.value))
  {
    hide AllIdent, QuoteFree, ReadableNames, RequestField, ResponseField, TrimRequest, TrimResponse;
    CertificationIdentifiers();
    EmptyIdentifiers();
    TrimmedEmpty("no_certification");
    TrimmedEmpty("no_request_certification");
    match c
    case Skip =>
    case ResponseOnly(response) =>
      TrimmedResponse(response);
      TwoFields("Certification", EmptyField("no_request_certification"), ResponseField(response));
    case Full(request, response) =>
      TrimmedRequest(request);
      TrimmedResponse(response);
      TwoFields("Certification", RequestField(request), ResponseField(response));
  }

  lemma TrimmedTerm(c: CelExpression)
    ensures Delimited(TermOf(c)) <==> AllQuoteFree(c)
    ensures Legible(TermOf(c)) <==> AllReadable(c)
    ensures Trim(TermOf(c)) == TermOf(Trimmed(c))
  {
    hide AllIdent, ArgsField, AllQuoteFree, AllReadable, Trimmed, Delimited, Legible, Trim;
    ExpressionIdentifiers();
    TrimmedArgs(c);
    OneField("ValidationArgs", ArgsField(c));
    OneArgument("default_certification", TObject("ValidationArgs", [ArgsField(c)]));
  }

  lemma OneArgument(name: string, t: Term)
    requires AllIdent(name)
    ensures Delimited(TFunction(name, [t])) <==> Delimited(t)
    ensures Legible(TFunction(name, [t])) <==> Legible(t)
    ensures Trim(TFunction(name, [t])) == TFunction(name, [Trim(t)])
  {
    hide AllIdent;
    assert [t][1..] == [];
    assert DelimitedItems([]) && LegibleItems([]) && TrimItems([]) == [];
  }

  // Where no name has a quote in it, the printed text is read exactly when white space is all that stands behind the
  // literals, and that white space is lost without an error.
  lemma ReadsTrimmed(c: CelExpression)
    requires AllQuoteFree(c)
    ensures ReadCelExpression(Render(TermOf(c))) ==
      if AllReadable(c) then Success(Trimmed(c)) else Fail(CelSyntaxException)
  {
    hide MapCelAst, Render, ParseCelValue, TermOf, Delimited, Legible, Trim, AllQuoteFree, AllReadable, Trimmed;
    TrimmedTerm(c);
    ReadTerm(TermOf(c), "");
    assert Render(TermOf(c)) + "" == Render(TermOf(c));
    MappingInverts(Trimmed(c));
  }

  // The same for any text of the expression, whatever white space stands between its tokens and whatever follows.
  lemma ReadsSpelled(c: CelExpression, text: string, rest: string)
    requires AllQuoteFree(c) && Spells(TermOf(c), text, rest)
    ensures ReadCelExpression(text) == if AllReadable(c) then Success(Trimmed(c)) else Fail(CelSyntaxException)
  {
    hide MapCelAst, Spells, ParseCelValue, TermOf, Delimited, Legible, Trim, AllQuoteFree, AllReadable, Trimmed;
    TrimmedTerm(c);
    ReadSpells(TermOf(c), text, rest);
    MappingInverts(Trimmed(c));
  }

  // What is read, of all texts: exactly those that spell a structure which means the expression.
  lemma ReadsExactly(text: string, c: CelExpression)
    ensures ReadCelExpression(text) == Success(c) <==>
      exists t, v, rest :: IsReadAs(t, text, v, rest) && Means(v, c)
  {
    hide MapCelAst, IsReadAs, ParseCelValue, Means;
    if ReadCelExpression(text) == Success(c) {
      var r := ParseCelValue(text);
      ParsesExactly(text, r.value, r.rest);
      MapsExactly(r.value, c);
    }
    if t, v, rest :| IsReadAs(t, text, v, rest) && Means(v, c) {
      ParsesExactly(text, v, rest);
      MapsExactly(v, c);
    }
  }

  lemma PrintableIsTrimmed(names: seq<string>)
    ensures AllPrintable(names) <==> QuoteFree(names) && ReadableNames(names) && TrimNames(names) == names
  {
    hide Literal;
    forall k | 0 <= k < |names| ensures AllStr(names[k]) <==> Literal(names[k]) == names[k] { WholeLiteral(names[k]); }
  }

  lemma WholeLiteral(s: string)
    ensures AllStr(s) <==> Literal(s) == s
    ensures AllStr(s) ==> '\"' !in s && Readable(s)
  {
    assert !StrChar('\"');
    hide StrChar;
    if AllStr(s) {
      TakeAll(c => StrChar(c), s, "");
      assert s + "" == s;
    }
  }

  lemma PrintableExactly(c: CelExpression)
    ensures Printable(c) <==> AllQuoteFree(c) && AllReadable(c) && Trimmed(c) == c
  {
    hide AllPrintable, QuoteFree, ReadableNames, TrimNames;
    if !c.Skip? { PrintableIsTrimmed(c.response.headers); }
    if c.Full? {
      PrintableIsTrimmed(c.request.headers);
      PrintableIsTrimmed(c.request.queryParameters);
    }
  }

  lemma {:induction false} CleanStrings(items: seq<CelValue>, property: string)
    requires forall k :: 0 <= k < |items| ==> Clean(items[k])
    ensures ValidateStrings(items, property).Success? ==> AllPrintable(ValidateStrings(items, property).value)
  {
    if items != [] { CleanStrings(items[1..], property); }
  }

  lemma CleanResponse(certification: map<string, CelValue>)
    requires forall k :: k in certification ==> Clean(certification[k])
    ensures ValidateResponseCertification(certification).Success? ==>
      AllPrintable(ValidateResponseCertification(certification).value.headers)
  {
    hide ResponseHeaders;
    if ValidateResponseCertification(certification).Success? {
      var fields := certification["response_certification"].fields;
      CleanHeaders(fields, "certified_response_headers");
      CleanHeaders(fields, "response_header_exclusions");
    }
  }

  lemma CleanHeaders(fields: map<string, CelValue>, property: string)
    requires forall k :: k in fields ==> Clean(fields[k])
    ensures ResponseHeaders(fields, property).Success? && ResponseHeaders(fields, property).value.Some? ==>
      AllPrintable(ResponseHeaders(fields, property).value.value)
  {
    if ResponseHeaders(fields, property).Success? && ResponseHeaders(fields, property).value.Some? {
      assert Clean(fields[property]);
      assert Clean(fields[property].fields["headers"]);
      CleanStrings(fields[property].fields["headers"].items, property);
    }
  }

  lemma CleanRequest(certification: map<string, CelValue>)
    requires forall k :: k in certification ==> Clean(certification[k])
    ensures var r := ValidateRequestCertification(certification);
      r.Success? && r.value.Some? ==> AllPrintable(r.value.value.headers) && AllPrintable(r.value.value.queryParameters)
  {
    var r := ValidateRequestCertification(certification);
    if r.Success? && r.value.Some? {
      var fields := certification["request_certification"].fields;
      assert Clean(certification["request_certification"]);
      assert Clean(fields["certified_request_headers"]) && Clean(fields["certified_query_parameters"]);
      CleanStrings(fields["certified_request_headers"].items, "certified_request_headers");
      CleanStrings(fields["certified_query_parameters"].items, "certified_query_parameters");
    }
  }

  // Whatever text is read, the names that come out can be printed again.
  lemma ReadIsPrintable(text: string)
    ensures ReadCelExpression(text).Success? ==> Printable(ReadCelExpression(text).value)
  {
    hide ValidateRequestCertification, ValidateResponseCertification, ParseCelExpression;
    if ReadCelExpression(text).Success? {
      var v := ParseCelExpression(text).value;
      var args := v.args[0];
      assert Clean(args);
      if !ReadCelExpression(text).value.Skip? {
        var certification := args.fields["certification"].fields;
        CleanRequest(certification);
        CleanResponse(certification);
      }
    }
  }

  // Reading the printed text gives the expression back exactly when every name can be spelled.
  lemma RoundTrip(c: CelExpression)
    ensures ReadCelExpression(Render(TermOf(c))) == Success(c) <==> Printable(c)
  {
    hide *;
    PrintableExactly(c);
    if Printable(c) { ReadsTrimmed(c); }
    ReadIsPrintable(Render(TermOf(c)));
  }

  // The characters of a string are those whose low byte is an ASCII letter or digit, and the hyphen; those of a name
  // have the underscore instead.
  lemma CharactersExactly(c: char)
    ensures StrChar(c) <==> c == '-' || exists d :: LetterOrDigit(d) && (c as int) % 256 == d as int
    ensures IdentChar(c) <==> c == '_' || exists d :: LetterOrDigit(d) && (c as int) % 256 == d as int
  {
    var low := ((c as int) % 256) as char;
    assert Alphanumeric((c as int) % 256) <==> LetterOrDigit(low);
  }

  predicate LetterOrDigit(c: char) {
    '0' <= c <= '9' || 'A' <= c <= 'Z' || 'a' <= c <= 'z'
  }

  predicate Plain(name: string) {
    forall k :: 0 <= k < |name| ==> name[k] == '-' || LetterOrDigit(name[k])
  }

  predicate AllPlain(names: seq<string>) {
    forall k :: 0 <= k < |names| ==> Plain(names[k])
  }

  lemma PlainIsPrintable(names: seq<string>)
    requires AllPlain(names)
    ensures AllPrintable(names)
  {
  }

  // Names of ASCII letters, digits and hyphens, the ones HTTP headers use, always come back.
  lemma PlainRoundTrip(c: CelExpression)
    requires !c.Skip? ==> AllPlain(c.response.headers)
    requires c.Full? ==> AllPlain(c.request.headers) && AllPlain(c.request.queryParameters)
    ensures ReadCelExpression(Render(TermOf(c))) == Success(c)
  {
    hide ReadCelExpression, Render, TermOf, Plain, AllStr;
    forall names: seq<string> | AllPlain(names) ensures AllPrintable(names) { PlainIsPrintable(names); }
    RoundTrip(c);
  }

  // Printing what was read from any accepted text is read as the same expression.
  lemma ReprintReads(text: string)
    requires ReadCelExpression(text).Success?
    ensures var c := ReadCelExpression(text).value; ReadCelExpression(Render(TermOf(c))) == Success(c)
  {
    hide *;
    ReadIsPrintable(text);
    RoundTrip(ReadCelExpression(text).value);
  }

  // ---------- Expressions that print alike ----------

  // An underscore is an error to the parser.
  lemma NameLost()
    ensures var c := ResponseOnly(CertifiedResponseHeaders(["user_id"]));
      ReadCelExpression(Render(TermOf(c))) == Fail(CelSyntaxException)
  {
    hide ReadCelExpression, Render, TermOf, Readable;
    var names := ["user_id"];
    assert names[0] == "user" + "_id";
    Unreadable("user", "_id");
    assert !ReadableNames(names);
    ReadsTrimmed(ResponseOnly(CertifiedResponseHeaders(names)));
  }

  lemma Unreadable(a: string, w: string)
    requires AllStr(a) && w != [] && !StrChar(w[0]) && !Space(w[0])
    ensures !Readable(a + w)
  {
    TakeAll(c => StrChar(c), a, w);
    assert (a + w)[|a|..] == w;
  }

  // A space at the end of a name is not: the name comes back without it.
  lemma SpaceLost()
    ensures var c := ResponseOnly(CertifiedResponseHeaders(["a "]));
      ReadCelExpression(Render(TermOf(c))) == Success(ResponseOnly(CertifiedResponseHeaders(["a"])))
  {
    hide ReadCelExpression, Render, TermOf;
    var names := ["a "];
    assert "a " == "a" + " ";
    LiteralAndSpace("a", " ");
    assert TrimNames(names) == ["a"];
    ReadsTrimmed(ResponseOnly(CertifiedResponseHeaders(names)));
  }

  // Of the expressions without quotes, these are read as another one.
  lemma SilentlyTrimmed(c: CelExpression)
    requires AllQuoteFree(c)
    ensures var r := ReadCelExpression(Render(TermOf(c)));
      r.Success? && r.value != c <==> AllReadable(c) && !Printable(c)
  {
    hide *;
    ReadsTrimmed(c);
    PrintableExactly(c);
  }

  // ---------- Names that are read as several ----------

  // The name cut at every quote, comma, quote.
  function Pieces(name: string): (r: seq<string>)
    ensures |r| > 0
  {
    if "\",\"" <= name then [""] + Pieces(name[3..])
    else if name == "" then [""]
    else
      var p := Pieces(name[1..]);
      [[name[0]] + p[0]] + p[1..]
  }

  function ResplitNames(names: seq<string>): seq<string> {
    if names == [] then [] else Pieces(names[0]) + ResplitNames(names[1..])
  }

  function ResplitRequest(request: RequestCertification): RequestCertification {
    RequestCertification(ResplitNames(request.headers), ResplitNames(request.queryParameters))
  }

  function ResplitResponse(response: ResponseCertification): ResponseCertification {
    response.(headers := ResplitNames(response.headers))
  }

  // The expression with every name cut into its pieces.
  function Resplit(c: CelExpression): CelExpression {
    match c
    case Skip => Skip
    case ResponseOnly(response) => ResponseOnly(ResplitResponse(response))
    case Full(request, response) => Full(ResplitRequest(request), ResplitResponse(response))
  }

  lemma {:induction false} JoinedPieces(name: string)
    ensures Join(Pieces(name), "\",\"") == name
  {
    var between := "\",\"";
    if between <= name {
      JoinedPieces(name[3..]);
      var p := Pieces(name[3..]);
      JoinConcat([""], p, between);
      assert Join([""], between) == "";
      assert "" + between + name[3..] == name;
    } else if name != "" {
      var p := Pieces(name[1..]);
      JoinedPieces(name[1..]);
      JoinPrepend([name[0]], p, between);
      assert [name[0]] + name[1..] == name;
    }
  }

  lemma JoinPrepend(a: string, p: seq<string>, between: string)
    requires p != []
    ensures Join([a + p[0]] + p[1..], between) == a + Join(p, between)
  {
    var q := [a + p[0]] + p[1..];
    assert q[1..] == p[1..];
  }

  lemma {:induction false} JoinConcat(x: seq<string>, y: seq<string>, between: string)
    requires x != [] && y != []
    ensures Join(x + y, between) == Join(x, between) + between + Join(y, between)
  {
    assert (x + y)[1..] == x[1..] + y;
    if |x| > 1 {
      JoinConcat(x[1..], y, between);
    } else {
      assert x[1..] + y == y;
    }
  }

  lemma {:induction false} JoinedResplit(names: seq<string>)
    ensures Join(ResplitNames(names), "\",\"") == Join(names, "\",\"") && (names == [] <==> ResplitNames(names) == [])
  {
    hide Pieces;
    if names != [] {
      JoinedPieces(names[0]);
      JoinedResplit(names[1..]);
      if |names| == 1 {
        assert Pieces(names[0]) + [] == Pieces(names[0]);
      } else {
        JoinConcat(Pieces(names[0]), ResplitNames(names[1..]), "\",\"");
      }
    }
  }

  // Both print the same.
  lemma ResplitText(c: CelExpression)
    ensures Render(TermOf(Resplit(c))) == Render(TermOf(c))
  {
    hide RenderItems, StrTerms, Render, RenderField, ResplitNames;
    ExpressionText(c);
    ExpressionText(Resplit(c));
    if !c.Skip? {
      ResplitListText(c.response.headers);
      ResponseText(c.response);
      ResponseText(ResplitResponse(c.response));
    }
    if c.Full? {
      ResplitListText(c.request.headers);
      ResplitListText(c.request.queryParameters);
      RequestText(c.request);
      RequestText(ResplitRequest(c.request));
    }
  }

  lemma ResplitListText(names: seq<string>)
    ensures RenderItems(StrTerms(ResplitNames(names))) == RenderItems(StrTerms(names))
  {
    hide RenderItems, StrTerms, ResplitNames;
    JoinedResplit(names);
    ListsAlike(ResplitNames(names), names);
  }

  lemma {:induction false} QuoteFreeIsOnePiece(name: string)
    requires '\"' !in name
    ensures Pieces(name) == [name]
  {
    if name != "" {
      QuoteFreeIsOnePiece(name[1..]);
      assert [name[0]] + name[1..] == name;
      assert !("\",\"" <= name);
    }
  }

  lemma {:induction false} QuoteFreeNames(names: seq<string>)
    requires QuoteFree(names)
    ensures ResplitNames(names) == names
  {
    if names != [] {
      QuoteFreeIsOnePiece(names[0]);
      QuoteFreeNames(names[1..]);
      assert [names[0]] + names[1..] == names;
    }
  }

  lemma ResplitQuoteFree(c: CelExpression)
    requires AllQuoteFree(c)
    ensures Resplit(c) == c
  {
    hide QuoteFree, ResplitNames;
    if !c.Skip? { QuoteFreeNames(c.response.headers); }
    if c.Full? {
      QuoteFreeNames(c.request.headers);
      QuoteFreeNames(c.request.queryParameters);
    }
  }

  // If the quotes of the names stand in no other place, what is read is decided by the pieces.
  lemma ReadsResplit(c: CelExpression)
    requires AllQuoteFree(Resplit(c))
    ensures ReadCelExpression(Render(TermOf(c))) ==
      if AllReadable(Resplit(c)) then Success(Trimmed(Resplit(c))) else Fail(CelSyntaxException)
  {
    hide *;
    ResplitText(c);
    ReadsTrimmed(Resplit(c));
  }

  // Two lists of names print alike exactly when both are empty or their joined texts are the same.
  lemma ListsAlike(x: seq<string>, y: seq<string>)
    ensures RenderItems(StrTerms(x)) == RenderItems(StrTerms(y)) <==>
      (x == [] <==> y == []) && Join(x, "\",\"") == Join(y, "\",\"")
  {
    ListText(x);
    ListText(y);
    StripQuotes(Join(x, "\",\""), Join(y, "\",\""), "\"");
  }

  lemma ListText(x: seq<string>)
    ensures RenderItems(StrTerms(x)) == if x == [] then "" else "\"" + Join(x, "\",\"") + "\""
  {
    if x != [] { JoinedStrings(x); }
  }

  lemma StripQuotes(a: string, b: string, quote: string)
    ensures quote + a + quote == quote + b + quote ==> a == b
  {
    if quote + a + quote == quote + b + quote {
      assert (quote + a + quote)[|quote|..|quote| + |a|] == a;
      assert (quote + b + quote)[|quote|..|quote| + |b|] == b;
    }
  }

  // A name with a quote, a comma and a quote in it prints as two names, and is read as two.
  lemma OneNameReadAsTwo(a: string, b: string)
    requires AllStr(a) && AllStr(b)
    ensures var c := ResponseOnly(CertifiedResponseHeaders([a + "\",\"" + b]));
      var d := ResponseOnly(CertifiedResponseHeaders([a, b]));
      c != d && Render(TermOf(c)) == Render(TermOf(d)) && ReadCelExpression(Render(TermOf(c))) == Success(d)
  {
    hide ReadCelExpression, Render;
    var x, y := [a + "\",\"" + b], [a, b];
    assert [a, b][1..] == [b];
    assert Join([b], "\",\"") == b;
    assert Join(x, "\",\"") == Join(y, "\",\"");
    ListsAlike(x, y);
    HeadersAlike(x, y);
    RoundTrip(ResponseOnly(CertifiedResponseHeaders(y)));
  }

  lemma HeadersAlike(x: seq<string>, y: seq<string>)
    requires RenderItems(StrTerms(x)) == RenderItems(StrTerms(y))
    ensures Render(TermOf(ResponseOnly(CertifiedResponseHeaders(x)))) ==
      Render(TermOf(ResponseOnly(CertifiedResponseHeaders(y))))
  {
    hide RenderItems, StrTerms, Render, RenderField;
    ExpressionText(ResponseOnly(CertifiedResponseHeaders(x)));
    ExpressionText(ResponseOnly(CertifiedResponseHeaders(y)));
    ResponseText(CertifiedResponseHeaders(x));
    ResponseText(CertifiedResponseHeaders(y));
  }

  // ---------- Names without quotes are told apart ----------

  lemma QuoteEnds(a: string, r: string)
    requires '\"' !in a
    ensures forall i :: 0 <= i < |a| ==> (a + ['\"'] + r)[i] != '\"'
    ensures (a + ['\"'] + r)[|a|] == '\"'
  {
    forall i | 0 <= i < |a| ensures (a + ['\"'] + r)[i] != '\"' { assert (a + ['\"'] + r)[i] == a[i] && a[i] in a; }
  }

  lemma FirstQuote(a: string, b: string, r: string, s: string)
    requires '\"' !in a && '\"' !in b && a + ['\"'] + r == b + ['\"'] + s
    ensures a == b && r == s
  {
    var x, y := a + ['\"'] + r, b + ['\"'] + s;
    QuoteEnds(a, r);
    QuoteEnds(b, s);
    assert x[..|a|] == a && y[..|b|] == b;
    assert x[|a| + 1..] == r && y[|b| + 1..] == s;
  }

  lemma Requote(comma: string, quote: string, name: string, rest: string, after: string)
    ensures comma + (quote + name + quote) + rest + after == comma + (quote + (name + (quote + (rest + after))))
    ensures quote + name + quote + rest + after == quote + (name + (quote + (rest + after)))
  {
  }

  lemma TailText(x: seq<string>, after: string)
    ensures RenderItemsTail(StrTerms(x)) + after ==
      if x == [] then after
      else "," + ("\"" + (x[0] + ("\"" + (RenderItemsTail(StrTerms(x[1..])) + after))))
  {
    if x == [] {
      assert "" + after == after;
    } else {
      hide RenderItems;
      var t := StrTerms(x);
      assert t[0] == TStr(x[0]) && t[1..] == StrTerms(x[1..]);
      assert RenderItemsTail(t) == "," + ("\"" + x[0] + "\"") + RenderItemsTail(t[1..]);
      Requote(",", "\"", x[0], RenderItemsTail(t[1..]), after);
    }
  }

  lemma ListStart(x: seq<string>, after: string)
    ensures RenderItems(StrTerms(x)) + after ==
      if x == [] then after else "\"" + (x[0] + ("\"" + (RenderItemsTail(StrTerms(x[1..])) + after)))
  {
    if x == [] {
      assert "" + after == after;
    } else {
      hide RenderItemsTail;
      var t := StrTerms(x);
      assert t[0] == TStr(x[0]) && t[1..] == StrTerms(x[1..]);
      assert RenderItems(t) == "\"" + x[0] + "\"" + RenderItemsTail(t[1..]);
      Requote(",", "\"", x[0], RenderItemsTail(t[1..]), after);
    }
  }

  lemma TailHead(x: seq<string>, r: string)
    ensures var text := RenderItemsTail(StrTerms(x)) + ([']'] + r);
      text != [] && (text[0] == ']' <==> x == [])
  {
    hide RenderItemsTail, StrTerms;
    TailText(x, [']'] + r);
  }

  lemma ListHead(x: seq<string>, r: string)
    ensures var text := RenderItems(StrTerms(x)) + ([']'] + r);
      text != [] && (text[0] == ']' <==> x == [])
  {
    hide RenderItems, RenderItemsTail, StrTerms;
    ListStart(x, [']'] + r);
  }

  // What follows the end of a list is told apart from the list.
  lemma {:induction false} TailsApart(x: seq<string>, y: seq<string>, r: string, s: string)
    requires QuoteFree(x) && QuoteFree(y)
    requires RenderItemsTail(StrTerms(x)) + ([']'] + r) == RenderItemsTail(StrTerms(y)) + ([']'] + s)
    ensures x == y && r == s
  {
    hide RenderItemsTail, StrTerms;
    TailText(x, [']'] + r);
    TailText(y, [']'] + s);
    TailHead(x, r);
    TailHead(y, s);
    if x == [] {
      SamePrefix([']'], r, s);
    } else {
      var p, q := RenderItemsTail(StrTerms(x[1..])) + ([']'] + r), RenderItemsTail(StrTerms(y[1..])) + ([']'] + s);
      SamePrefix(",", "\"" + (x[0] + ("\"" + p)), "\"" + (y[0] + ("\"" + q)));
      NamesApart(x, y, p, q);
      TailsApart(x[1..], y[1..], r, s);
    }
  }

  lemma NamesApart(x: seq<string>, y: seq<string>, p: string, q: string)
    requires x != [] && y != [] && QuoteFree(x) && QuoteFree(y)
    requires "\"" + (x[0] + ("\"" + p)) == "\"" + (y[0] + ("\"" + q))
    ensures x[0] == y[0] && p == q && (x[1..] == y[1..] ==> x == y)
  {
    SamePrefix("\"", x[0] + ("\"" + p), y[0] + ("\"" + q));
    assert x[0] + ("\"" + p) == x[0] + ['\"'] + p && y[0] + ("\"" + q) == y[0] + ['\"'] + q;
    FirstQuote(x[0], y[0], p, q);
    assert x == [x[0]] + x[1..] && y == [y[0]] + y[1..];
  }

  lemma ListsApart(x: seq<string>, y: seq<string>, r: string, s: string)
    requires QuoteFree(x) && QuoteFree(y)
    requires RenderItems(StrTerms(x)) + ([']'] + r) == RenderItems(StrTerms(y)) + ([']'] + s)
    ensures x == y && r == s
  {
    hide RenderItemsTail, RenderItems, StrTerms;
    ListStart(x, [']'] + r);
    ListStart(y, [']'] + s);
    ListHead(x, r);
    ListHead(y, s);
    if x == [] {
      SamePrefix([']'], r, s);
    } else {
      var p, q := RenderItemsTail(StrTerms(x[1..])) + ([']'] + r), RenderItemsTail(StrTerms(y[1..])) + ([']'] + s);
      NamesApart(x, y, p, q);
      TailsApart(x[1..], y[1..], r, s);
    }
  }

  lemma SamePrefix(a: string, x: string, y: string)
    requires a + x == a + y
    ensures x == y
  {
    assert (a + x)[|a|..] == x && (a + y)[|a|..] == y;
  }

  lemma SameSuffix(x: string, y: string, a: string)
    requires x + a == y + a
    ensures x == y
  {
    assert (x + a)[..|x|] == x && (y + a)[..|y|] == y;
  }

  lemma KindsDiffer(c: ResponseCertification, d: ResponseCertification)
    ensures |Kind(c)| == |Kind(d)| == 26
    ensures Kind(c) == Kind(d) ==> (c.CertifiedResponseHeaders? <==> d.CertifiedResponseHeaders?)
  {
    assert "certified_response_headers"[0] != "response_header_exclusions"[0];
  }

  lemma ResponsesApart(c: ResponseCertification, d: ResponseCertification)
    requires QuoteFree(c.headers) && QuoteFree(d.headers)
    requires RenderField(ResponseField(c)) == RenderField(ResponseField(d))
    ensures c == d
  {
    hide RenderField, RenderItems, StrTerms, ResponseOpening, ResponseBetween, Kind, ResponseField;
    ResponseText(c);
    ResponseText(d);
    KindsDiffer(c, d);
    var h, k := RenderItems(StrTerms(c.headers)), RenderItems(StrTerms(d.headers));
    Regrouped(ResponseOpening(), Kind(c), ResponseBetween(), h);
    Regrouped(ResponseOpening(), Kind(d), ResponseBetween(), k);
    var x, y := ResponseBetween() + (h + ([']'] + "}}")), ResponseBetween() + (k + ([']'] + "}}"));
    SamePrefix(ResponseOpening(), Kind(c) + x, Kind(d) + y);
    SameStart(Kind(c), x, Kind(d), y);
    SamePrefix(ResponseBetween(), h + ([']'] + "}}"), k + ([']'] + "}}"));
    ListsApart(c.headers, d.headers, "}}", "}}");
  }

  lemma SameStart(a: string, x: string, b: string, y: string)
    requires |a| == |b| && a + x == b + y
    ensures a == b && x == y
  {
    assert (a + x)[..|a|] == a && (b + y)[..|b|] == b;
    assert (a + x)[|a|..] == x && (b + y)[|b|..] == y;
  }

  lemma Regrouped(a: string, b: string, c: string, d: string)
    ensures a + b + c + d + "]" + "}" + "}" == a + (b + (c + (d + ([']'] + "}}"))))
  {
  }

  lemma RequestsApart(c: RequestCertification, d: RequestCertification, r: string, s: string)
    requires QuoteFree(c.headers) && QuoteFree(c.queryParameters) && QuoteFree(d.headers)
      && QuoteFree(d.queryParameters)
    requires RenderField(RequestField(c)) + r == RenderField(RequestField(d)) + s
    ensures c == d && r == s
  {
    hide RenderField, RenderItems, StrTerms, RequestOpening, RequestBetween, RequestField;
    RequestText(c);
    RequestText(d);
    BetweenStart();
    var h, k := RenderItems(StrTerms(c.headers)), RenderItems(StrTerms(d.headers));
    var p, q := RenderItems(StrTerms(c.queryParameters)), RenderItems(StrTerms(d.queryParameters));
    var between := RequestBetween()[1..];
    var left, right := between + (p + ([']'] + ("}" + r))), between + (q + ([']'] + ("}" + s)));
    RegroupedRequest(RequestOpening(), h, between, p, r);
    RegroupedRequest(RequestOpening(), k, between, q, s);
    SamePrefix(RequestOpening(), h + ([']'] + left), k + ([']'] + right));
    ListsApart(c.headers, d.headers, left, right);
    SamePrefix(between, p + ([']'] + ("}" + r)), q + ([']'] + ("}" + s)));
    ListsApart(c.queryParameters, d.queryParameters, "}" + r, "}" + s);
    SamePrefix("}", r, s);
  }

  lemma BetweenStart()
    ensures RequestBetween() != [] && RequestBetween() == [']'] + RequestBetween()[1..]
  {
  }

  lemma RegroupedRequest(a: string, h: string, between: string, p: string, r: string)
    ensures a + h + ([']'] + between) + p + "]" + "}" + r == a + (h + ([']'] + (between + (p + ([']'] + ("}" + r))))))
  {
  }

  lemma PartsBegin(c: CelExpression)
    ensures ArgsText(c) != [] && ArgsText(c)[0] == if c.Skip? then 'n' else 'c'
    ensures !c.Skip? ==> RequestPart(c) != [] && RequestPart(c)[0] == if c.Full? then 'r' else 'n'
  {
    RenderEmptyField("no_certification");
    RenderEmptyField("no_request_certification");
    if c.Full? { RequestText(c.request); }
  }

  // Where no name has a quote in it, expressions print alike only if they are the same.
  lemma PrintsAlike(c: CelExpression, d: CelExpression)
    requires AllQuoteFree(c) && AllQuoteFree(d)
    ensures Render(TermOf(c)) == Render(TermOf(d)) <==> c == d
  {
    hide Render, TermOf, ArgsText, RequestPart, RenderField, ExpressionOpening;
    if Render(TermOf(c)) == Render(TermOf(d)) {
      ExpressionText(c);
      ExpressionText(d);
      SameSuffix(ExpressionOpening() + ArgsText(c) + "}", ExpressionOpening() + ArgsText(d) + "}", ")");
      SameSuffix(ExpressionOpening() + ArgsText(c), ExpressionOpening() + ArgsText(d), "}");
      SamePrefix(ExpressionOpening(), ArgsText(c), ArgsText(d));
      ArgsApart(c, d);
    }
  }

  lemma ArgsApart(c: CelExpression, d: CelExpression)
    requires AllQuoteFree(c) && AllQuoteFree(d) && ArgsText(c) == ArgsText(d)
    ensures c == d
  {
    hide RequestPart, RenderField, CertificationOpening, ResponseField;
    PartsBegin(c);
    PartsBegin(d);
    if !c.Skip? {
      var f, g := RenderField(ResponseField(c.response)), RenderField(ResponseField(d.response));
      SameSuffix(CertificationOpening() + (RequestPart(c) + ",") + f,
        CertificationOpening() + (RequestPart(d) + ",") + g, "}");
      Ungroup(CertificationOpening(), RequestPart(c), f);
      Ungroup(CertificationOpening(), RequestPart(d), g);
      SamePrefix(CertificationOpening(), RequestPart(c) + ("," + f), RequestPart(d) + ("," + g));
      assert (RequestPart(c) + ("," + f))[0] == RequestPart(c)[0];
      assert (RequestPart(d) + ("," + g))[0] == RequestPart(d)[0];
      PartsApart(c, d, "," + f, "," + g);
      SamePrefix(",", f, g);
      ResponsesApart(c.response, d.response);
    }
  }

  lemma PartsApart(c: CelExpression, d: CelExpression, r: string, s: string)
    requires !c.Skip? && !d.Skip? && (c.Full? <==> d.Full?) && AllQuoteFree(c) && AllQuoteFree(d)
    requires RequestPart(c) + r == RequestPart(d) + s
    ensures r == s && (c.Full? ==> c.request == d.request)
  {
    hide RenderField;
    if c.Full? {
      RequestsApart(c.request, d.request, r, s);
    } else {
      SamePrefix(RequestPart(c), r, s);
    }
  }

  lemma Ungroup(a: string, b: string, c: string)
    ensures a + (b + ",") + c == a + (b + ("," + c))
  {
  }
}
