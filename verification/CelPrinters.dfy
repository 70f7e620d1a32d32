// The printers of certification expressions, and the structure of what they print.
module CelPrinters {
  import opened Bytes
  import opened Cel
  import opened CelText

  // ---------- The printers ----------

  function StrTerms(names: seq<string>): seq<Term> {
    if names == [] then [] else [TStr(names[0])] + StrTerms(names[1..])
  }

  function EmptyField(name: string): Field {
    Field(name, TObject("Empty", []))
  }

  function RequestField(request: RequestCertification): Field {
    Field("request_certification", TObject("RequestCertification", [
      Field("certified_request_headers", TArr(StrTerms(request.headers))),
      Field("certified_query_parameters", TArr(StrTerms(request.queryParameters)))]))
  }

  function Kind(response: ResponseCertification): string {
    if response.CertifiedResponseHeaders? then "certified_response_headers" else "response_header_exclusions"
  }

  function ResponseField(response: ResponseCertification): Field {
    Field("response_certification", TObject("ResponseCertification", [
      Field(Kind(response), TObject("ResponseHeaderList", [Field("headers", TArr(StrTerms(response.headers)))]))]))
  }

  function ArgsField(c: CelExpression): Field {
    match c
    case Skip => EmptyField("no_certification")
    case ResponseOnly(response) =>
      Field("certification",
        TObject("Certification", [EmptyField("no_request_certification"), ResponseField(response)]))
    case Full(request, response) =>
      Field("certification", TObject("Certification", [RequestField(request), ResponseField(response)]))
  }

  // The structure the printed expression spells out.
  function TermOf(c: CelExpression): Term {
    TFunction("default_certification", [TObject("ValidationArgs", [ArgsField(c)])])
  }

  lemma {:induction false} JoinedStrings(names: seq<string>)
    requires names != []
    ensures "\"" + Join(names, "\",\"") + "\"" == RenderItems(StrTerms(names))
  {
    var terms := StrTerms(names);
    assert terms[1..] == StrTerms(names[1..]);
    assert RenderItems(terms) == "\"" + names[0] + "\"" + RenderItemsTail(terms[1..]);
    if |names| == 1 {
      assert RenderItemsTail(terms[1..]) == "";
    } else {
      JoinedStrings(names[1..]);
      var rest := StrTerms(names[1..]);
      assert RenderItemsTail(rest) == "," + Render(rest[0]) + RenderItemsTail(rest[1..]);
      assert RenderItemsTail(rest) == "," + RenderItems(rest);
      assert "\",\"" == "\"" + "," + "\"";
      Rejoin(names[0], Join(names[1..], "\",\""), "\"", ",");
    }
  }

  lemma Rejoin(first: string, rest: string, quote: string, comma: string)
    ensures quote + (first + (quote + comma + quote) + rest) + quote ==
      quote + first + quote + (comma + (quote + rest + quote))
  {
  }

  lemma RenderOneField(name: string, f: Field)
    ensures Render(TObject(name, [f])) == name + "{" + RenderField(f) + "}"
  {
    assert RenderFieldsTail([f][1..]) == "";
    assert RenderFields([f]) == RenderField(f);
  }

  lemma RenderTwoFields(name: string, f: Field, g: Field)
    ensures Render(TObject(name, [f, g])) == name + "{" + RenderField(f) + "," + RenderField(g) + "}"
  {
    assert [f, g][1..] == [g];
    assert RenderFieldsTail([g][1..]) == "";
    assert RenderFieldsTail([g]) == "," + RenderField(g);
    assert RenderFields([f, g]) == RenderField(f) + ("," + RenderField(g));
  }

  // An object of two lists is its opening, the first list, what stands between, the second list.
  lemma RenderTwoLists(field: string, name: string, p: string, xs: seq<Term>, q: string, ys: seq<Term>,
                       opening: string, between: string)
    requires opening == field + ":" + (name + "{") + (p + ":" + "[") && between == "]" + "," + (q + ":" + "[")
    ensures RenderField(Field(field, TObject(name, [Field(p, TArr(xs)), Field(q, TArr(ys))])))
      == opening + RenderItems(xs) + between + RenderItems(ys) + "]" + "}"
  {
    hide RenderItems, RenderFields, RenderFieldsTail;
    RenderTwoFields(name, Field(p, TArr(xs)), Field(q, TArr(ys)));
    var h, k := RenderItems(xs), RenderItems(ys);
    assert RenderField(Field(p, TArr(xs))) == p + ":" + ("[" + h + "]");
    assert RenderField(Field(q, TArr(ys))) == q + ":" + ("[" + k + "]");
    Reassociate(field + ":", name + "{", p + ":", "[", h, "]", ",", q + ":", k, "}");
  }

  lemma Reassociate(
      a: string, b: string, c: string, d: string, e: string, f: string, g: string, h: string, i: string, j: string)
    ensures a + (b + (c + (d + e + f)) + g + (h + (d + i + f)) + j) ==
      a + b + (c + d) + e + (f + g + (h + d)) + i + f + j
  {
  }

  // A list inside two objects.
  lemma RenderNestedList(field: string, name: string, kind: string, list: string, items: string, xs: seq<Term>,
                         opening: string, between: string)
    requires opening == field + ":" + (name + "{") && between == ":" + (list + "{") + (items + ":" + "[")
    ensures RenderField(Field(field, TObject(name, [Field(kind, TObject(list, [Field(items, TArr(xs))]))])))
      == opening + kind + between + RenderItems(xs) + "]" + "}" + "}"
  {
    hide RenderItems;
    var f := Field(items, TArr(xs));
    var g := Field(kind, TObject(list, [f]));
    RenderOneField(list, f);
    RenderOneField(name, g);
    var h := RenderItems(xs);
    assert RenderField(f) == items + ":" + ("[" + h + "]");
    assert RenderField(g) == kind + ":" + (list + "{" + (items + ":" + ("[" + h + "]")) + "}");
    assert RenderField(g) == kind + between + h + "]" + "}";
    assert RenderField(Field(field, TObject(name, [g]))) == field + ":" + (name + "{" + RenderField(g) + "}");
  }

  function RequestOpening(): string {
    "request_certification:RequestCertification{" + "certified_request_headers:["
  }

  function RequestBetween(): string {
    "],certified_query_parameters:["
  }

  function ResponseOpening(): string {
    "response_certification:ResponseCertification{"
  }

  function ResponseBetween(): string {
    ":ResponseHeaderList{headers:["
  }

  function ExpressionOpening(): string {
    "default_certification(ValidationArgs{"
  }

  function CertificationOpening(): string {
    "certification:Certification{"
  }

  lemma RequestObjectParts()
    ensures "request_certification:RequestCertification{" ==
      "request_certification" + ":" + ("RequestCertification" + "{")
  {
  }

  lemma RequestListParts()
    ensures "certified_request_headers:[" == "certified_request_headers" + ":" + "["
  {
  }

  lemma RequestOpeningParts()
    ensures RequestOpening() ==
      "request_certification" + ":" + ("RequestCertification" + "{") + ("certified_request_headers" + ":" + "[")
  {
    RequestObjectParts();
    RequestListParts();
  }

  lemma RequestBetweenParts()
    ensures RequestBetween() == "]" + "," + ("certified_query_parameters" + ":" + "[")
  {
  }

  lemma ResponseOpeningParts()
    ensures ResponseOpening() == "response_certification" + ":" + ("ResponseCertification" + "{")
  {
  }

  lemma ResponseBetweenParts()
    ensures ResponseBetween() == ":" + ("ResponseHeaderList" + "{") + ("headers" + ":" + "[")
  {
  }

  lemma ExpressionParts()
    ensures ExpressionOpening() == "default_certification" + "(" + ("ValidationArgs" + "{")
    ensures CertificationOpening() == "certification" + ":" + ("Certification" + "{")
  {
  }

  lemma RenderCall(function_: string, name: string, f: Field, opening: string)
    requires opening == function_ + "(" + (name + "{")
    ensures Render(TFunction(function_, [TObject(name, [f])])) == opening + RenderField(f) + "}" + ")"
  {
    hide RenderField;
    var args := TObject(name, [f]);
    RenderOneField(name, f);
    assert RenderItemsTail([args][1..]) == "";
    assert RenderItems([args]) == Render(args);
  }

  lemma RenderEmptyField(name: string)
    ensures RenderField(EmptyField(name)) == name + ":Empty{}"
  {
    assert RenderFields([]) == "";
    assert Render(TObject("Empty", [])) == "Empty{}";
  }

  lemma RenderCertification(f: Field, g: Field, opening: string)
    requires opening == "certification" + ":" + ("Certification" + "{")
    ensures RenderField(Field("certification", TObject("Certification", [f, g]))) ==
      opening + (RenderField(f) + ",") + RenderField(g) + "}"
  {
    RenderTwoFields("Certification", f, g);
    Reopen("certification" + ":", "Certification" + "{", RenderField(f), ",", RenderField(g), "}");
  }

  lemma Reopen(a: string, b: string, c: string, d: string, e: string, f: string)
    ensures a + (b + c + d + e + f) == a + b + (c + d) + e + f
  {
  }

  // ---------- The texts of the parts ----------

  lemma ResponseText(response: ResponseCertification)
    ensures RenderField(ResponseField(response)) ==
      ResponseOpening() + Kind(response) + ResponseBetween() + RenderItems(StrTerms(response.headers)) + "]" + "}" + "}"
  {
    hide ResponseOpening, ResponseBetween, RenderField, RenderItems, StrTerms;
    ResponseOpeningParts();
    ResponseBetweenParts();
    RenderNestedList("response_certification", "ResponseCertification", Kind(response), "ResponseHeaderList", "headers",
                     StrTerms(response.headers), ResponseOpening(), ResponseBetween());
  }

  lemma RequestText(request: RequestCertification)
    ensures RenderField(RequestField(request)) ==
      RequestOpening() + RenderItems(StrTerms(request.headers)) + RequestBetween()
      + RenderItems(StrTerms(request.queryParameters)) + "]" + "}"
  {
    hide RequestOpening, RequestBetween, RenderField, RenderItems, StrTerms;
    RequestOpeningParts();
    RequestBetweenParts();
    RenderTwoLists("request_certification", "RequestCertification",
                   "certified_request_headers", StrTerms(request.headers),
                   "certified_query_parameters", StrTerms(request.queryParameters), RequestOpening(), RequestBetween());
  }

  function RequestPart(c: CelExpression): string
    requires !c.Skip?
  {
    if c.Full? then RenderField(RequestField(c.request)) else RenderField(EmptyField("no_request_certification"))
  }

  lemma ExpressionText(c: CelExpression)
    ensures Render(TermOf(c)) == ExpressionOpening() + ArgsText(c) + "}" + ")"
  {
    hide ExpressionOpening, CertificationOpening, Render, RenderField, EmptyField, RequestField, ResponseField;
    ExpressionParts();
    RenderCall("default_certification", "ValidationArgs", ArgsField(c), ExpressionOpening());
    match c
    case Skip =>
    case ResponseOnly(response) =>
      RenderCertification(EmptyField("no_request_certification"), ResponseField(response), CertificationOpening());
    case Full(request, response) =>
      RenderCertification(RequestField(request), ResponseField(response), CertificationOpening());
  }

  function ArgsText(c: CelExpression): string {
    if c.Skip? then RenderField(EmptyField("no_certification"))
    else CertificationOpening() + (RequestPart(c) + ",") + RenderField(ResponseField(c.response)) + "}"
  }

  // ---------- The printers, step by step ----------

  method PushStringList(celExpr: string, names: seq<string>) returns (out: string)
    ensures out == celExpr + RenderItems(StrTerms(names))
  {
    out := celExpr;
    if |names| > 0 {
      JoinedStrings(names);
      out := out + "\"";
      out := out + Join(names, "\",\"");
      out := out + "\"";
    }
  }

  method CreateRequestCelExpr(celExpr: string, request: RequestCertification) returns (out: string)
    ensures out == celExpr + (RenderField(RequestField(request)) + ",")
  {
    hide RequestOpening, RequestBetween, RenderField, RenderItems, StrTerms;
    out := celExpr + RequestOpening();
    out := PushStringList(out, request.headers);
    out := out + RequestBetween();
    out := PushStringList(out, request.queryParameters);
    out := out + "]},";
    RequestText(request);
    assert "]}," == "]" + "}" + ",";
    Regroup5(celExpr, RequestOpening(), RenderItems(StrTerms(request.headers)), RequestBetween(),
             RenderItems(StrTerms(request.queryParameters)), "]", "}", ",");
  }

  lemma Regroup5(a: string, b: string, c: string, d: string, e: string, f: string, g: string, h: string)
    ensures a + b + c + d + e + (f + g + h) == a + (b + c + d + e + f + g + h)
  {
  }

  method CreateResponseCelExpr(celExpr: string, response: ResponseCertification) returns (out: string)
    ensures out == celExpr + RenderField(ResponseField(response))
  {
    hide ResponseOpening, ResponseBetween, RenderField, RenderItems, StrTerms;
    out := celExpr + ResponseOpening();
    match response {
      case CertifiedResponseHeaders(_) => out := out + "certified_response_headers";
      case ResponseHeaderExclusions(_) => out := out + "response_header_exclusions";
    }
    out := out + ResponseBetween();
    out := PushStringList(out, response.headers);
    out := out + "]}}";
    ResponseText(response);
    assert "]}}" == "]" + "}" + "}";
    Regroup5(celExpr, ResponseOpening(), Kind(response), ResponseBetween(), RenderItems(StrTerms(response.headers)),
      "]", "}", "}");
  }

  method CreateSkipCelExpr() returns (celExpr: string)
    ensures celExpr == Render(TermOf(Skip))
  {
    hide ExpressionOpening, Render, RenderField, EmptyField;
    celExpr := ExpressionOpening();
    celExpr := celExpr + "no_certification" + ":Empty{}";
    celExpr := celExpr + "})";
    RenderEmptyField("no_certification");
    ExpressionText(Skip);
    assert "})" == "}" + ")";
  }

  method CreateResponseOnlyCelExpr(response: ResponseCertification) returns (celExpr: string)
    ensures celExpr == Render(TermOf(ResponseOnly(response)))
  {
    hide ExpressionOpening, CertificationOpening, Render, RenderField, EmptyField, ResponseField;
    celExpr := ExpressionOpening();
    celExpr := celExpr + CertificationOpening();
    celExpr := celExpr + "no_request_certification" + ":Empty{}" + ",";
    celExpr := CreateResponseCelExpr(celExpr, response);
    celExpr := celExpr + "}";
    celExpr := celExpr + "})";
    RenderEmptyField("no_request_certification");
    ExpressionText(ResponseOnly(response));
    assert "})" == "}" + ")";
    Assemble(ExpressionOpening(), CertificationOpening(), "no_request_certification" + ":Empty{}",
      RenderField(ResponseField(response)));
  }

  method CreateFullCelExpr(request: RequestCertification, response: ResponseCertification) returns (celExpr: string)
    ensures celExpr == Render(TermOf(Full(request, response)))
  {
    hide ExpressionOpening, CertificationOpening, Render, RenderField, RequestField, ResponseField;
    celExpr := ExpressionOpening();
    celExpr := celExpr + CertificationOpening();
    celExpr := CreateRequestCelExpr(celExpr, request);
    celExpr := CreateResponseCelExpr(celExpr, response);
    celExpr := celExpr + "}";
    celExpr := celExpr + "})";
    ExpressionText(Full(request, response));
    assert "})" == "}" + ")";
    Assemble(ExpressionOpening(), CertificationOpening(), RenderField(RequestField(request)),
      RenderField(ResponseField(response)));
  }

  lemma Assemble(a: string, b: string, c: string, d: string)
    ensures a + b + c + "," + d + "}" + ("}" + ")") == a + (b + (c + ",") + d + "}") + "}" + ")"
    ensures a + b + (c + ",") + d + "}" + ("}" + ")") == a + (b + (c + ",") + d + "}") + "}" + ")"
  {
  }

  // create_cel_expr writes the rendered structure of the expression.
  method CreateCelExpr(c: CelExpression) returns (text: string)
    ensures text == Render(TermOf(c))
  {
    match c
    case Skip => text := CreateSkipCelExpr();
    case ResponseOnly(response) => text := CreateResponseOnlyCelExpr(response);
    case Full(request, response) => text := CreateFullCelExpr(request, response);
  }
}
