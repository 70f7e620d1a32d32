// What a parsed value means as an expression.
module CelMapping {
  import opened Bytes
  import opened Cel

  // ---------- What an expression means ----------

  predicate Is(v: CelValue, name: string) {
    v.Object? && v.name == name
  }

  predicate AreStrings(v: CelValue, names: seq<string>) {
    v.Arr? && |v.items| == |names| && forall k :: 0 <= k < |names| ==> v.items[k] == Str(names[k])
  }

  predicate FieldLists(fields: map<string, CelValue>, property: string, names: seq<string>) {
    property in fields && AreStrings(fields[property], names)
  }

  // The header list under this property; one without headers counts as none.
  predicate ListsHeaders(fields: map<string, CelValue>, property: string, names: Option<seq<string>>) {
    if names.None? then
      property in fields ==> Is(fields[property], "ResponseHeaderList") && "headers" !in fields[property].fields
    else
      && property in fields && Is(fields[property], "ResponseHeaderList")
      && FieldLists(fields[property].fields, "headers", names.value)
  }

  predicate MeansRequest(certification: map<string, CelValue>, request: Option<RequestCertification>) {
    match request
    case None => "no_request_certification" in certification && "request_certification" !in certification
    case Some(r) =>
      && "no_request_certification" !in certification && "request_certification" in certification
      && Is(certification["request_certification"], "RequestCertification")
      && var fields := certification["request_certification"].fields;
         && FieldLists(fields, "certified_request_headers", r.headers)
         && FieldLists(fields, "certified_query_parameters", r.queryParameters)
  }

  predicate MeansResponse(certification: map<string, CelValue>, response: ResponseCertification) {
    && "response_certification" in certification
    && Is(certification["response_certification"], "ResponseCertification")
    && var fields := certification["response_certification"].fields;
       match response
       case CertifiedResponseHeaders(headers) =>
         && ListsHeaders(fields, "certified_response_headers", Some(headers))
         && ListsHeaders(fields, "response_header_exclusions", None)
       case ResponseHeaderExclusions(headers) =>
         && ListsHeaders(fields, "certified_response_headers", None)
         && ListsHeaders(fields, "response_header_exclusions", Some(headers))
  }

  // What the value says as an expression: of each choice exactly one alternative is there. Other fields, and what
  // follows the first argument, do not matter.
  predicate Means(v: CelValue, c: CelExpression) {
    && v.Function? && v.name == "default_certification" && v.args != [] && Is(v.args[0], "ValidationArgs")
    && var fields := v.args[0].fields;
       if c.Skip? then "no_certification" in fields && "certification" !in fields
       else
         && "no_certification" !in fields && "certification" in fields && Is(fields["certification"], "Certification")
         && MeansRequest(fields["certification"].fields, if c.Full? then Some(c.request) else None)
         && MeansResponse(fields["certification"].fields, c.response)
  }

  lemma {:induction false} StringsExactly(items: seq<CelValue>, property: string, names: seq<string>)
    ensures ValidateStrings(items, property) == Success(names) <==> AreStrings(Arr(items), names)
  {
    if items != [] {
      if names == [] {
        assert ValidateStrings(items, property) != Success(names);
      } else {
        StringsExactly(items[1..], property, names[1..]);
        assert items == [items[0]] + items[1..] && names == [names[0]] + names[1..];
        if ValidateStrings(items, property) == Success(names) {
          var rest := ValidateStrings(items[1..], property).value;
          assert ([items[0].s] + rest)[1..] == rest;
        }
      }
    }
  }

  lemma FieldExactly(fields: map<string, CelValue>, owner: string, property: string, names: seq<string>)
    ensures StringArrayField(fields, owner, property) == Success(names) <==> FieldLists(fields, property, names)
  {
    if property in fields && fields[property].Arr? { StringsExactly(fields[property].items, property, names); }
  }

  lemma HeadersExactly(fields: map<string, CelValue>, property: string, names: Option<seq<string>>)
    ensures ResponseHeaders(fields, property) == Success(names) <==> ListsHeaders(fields, property, names)
  {
    if property in fields && Is(fields[property], "ResponseHeaderList") && "headers" in fields[property].fields {
      var list := fields[property].fields["headers"];
      if list.Arr? && names.Some? { StringsExactly(list.items, property, names.value); }
    }
  }

  lemma RequestExactly(certification: map<string, CelValue>, request: Option<RequestCertification>)
    ensures ValidateRequestCertification(certification) == Success(request) <==> MeansRequest(certification, request)
  {
    hide StringArrayField, FieldLists;
    if request.Some? && "request_certification" in certification && certification["request_certification"].Object? {
      var fields := certification["request_certification"].fields;
      FieldExactly(fields, "RequestCertification", "certified_request_headers", request.value.headers);
      FieldExactly(fields, "RequestCertification", "certified_query_parameters", request.value.queryParameters);
    }
  }

  lemma ResponseExactly(certification: map<string, CelValue>, response: ResponseCertification)
    ensures ValidateResponseCertification(certification) == Success(response) <==>
      MeansResponse(certification, response)
  {
    hide ResponseHeaders, ListsHeaders;
    if "response_certification" in certification && certification["response_certification"].Object? {
      var fields := certification["response_certification"].fields;
      HeadersExactly(fields, "certified_response_headers", None);
      HeadersExactly(fields, "certified_response_headers", Some(response.headers));
      HeadersExactly(fields, "response_header_exclusions", None);
      HeadersExactly(fields, "response_header_exclusions", Some(response.headers));
    }
  }

  // A value is mapped to exactly the expression it means, and is an error if it means none.
  lemma MapsExactly(v: CelValue, c: CelExpression)
    ensures MapCelAst(v) == Success(c) <==> Means(v, c)
  {
    hide ValidateRequestCertification, ValidateResponseCertification, MeansRequest, MeansResponse;
    if v.Function? && v.args != [] && v.args[0].Object? && "certification" in v.args[0].fields
      && v.args[0].fields["certification"].Object? && !c.Skip? {
      var certification := v.args[0].fields["certification"].fields;
      RequestExactly(certification, None);
      if c.Full? { RequestExactly(certification, Some(c.request)); }
      ResponseExactly(certification, c.response);
    }
  }

  // Both alternatives of a choice, or neither, are errors that name it.
  lemma ChoiceErrors(v: CelValue)
    requires v.Function? && v.name == "default_certification" && v.args != [] && Is(v.args[0], "ValidationArgs")
    ensures var fields := v.args[0].fields;
      && (MapCelAst(v) == Fail(ExtraneousValidationArgsProperty) <==>
            "no_certification" in fields && "certification" in fields)
      && (MapCelAst(v) == Fail(MissingValidationArgsProperty) <==>
            "no_certification" !in fields && "certification" !in fields)
    ensures var fields := v.args[0].fields;
      "no_certification" !in fields && "certification" in fields && Is(fields["certification"], "Certification") ==>
        var certification := fields["certification"].fields;
        && (MapCelAst(v) == Fail(ExtraneousRequestCertificationProperty) <==>
              "no_request_certification" in certification && "request_certification" in certification)
        && (MapCelAst(v) == Fail(MissingRequestCertificationProperty) <==>
              "no_request_certification" !in certification && "request_certification" !in certification)
  {
    hide ValidateRequestCertification, ValidateResponseCertification;
    if "certification" in v.args[0].fields && v.args[0].fields["certification"].Object? {
      RequestErrors(v.args[0].fields["certification"].fields);
      ResponseErrors(v.args[0].fields["certification"].fields);
    }
  }

  lemma StringErrors(fields: map<string, CelValue>, owner: string, property: string)
    ensures var r := StringArrayField(fields, owner, property);
      r.Fail? ==> r.error.MissingObjectProperty? || r.error.UnexpectedNodeType?
  {
    if property in fields && fields[property].Arr? { ItemErrors(fields[property].items, property); }
  }

  lemma {:induction false} ItemErrors(items: seq<CelValue>, property: string)
    ensures ValidateStrings(items, property).Fail? ==>
      ValidateStrings(items, property).error == UnexpectedNodeType(property, "String")
  {
    if items != [] { ItemErrors(items[1..], property); }
  }

  lemma RequestErrors(certification: map<string, CelValue>)
    ensures var r := ValidateRequestCertification(certification);
      && (r == Fail(ExtraneousRequestCertificationProperty) <==>
            "no_request_certification" in certification && "request_certification" in certification)
      && (r == Fail(MissingRequestCertificationProperty) <==>
            "no_request_certification" !in certification && "request_certification" !in certification)
      && (r.Fail? ==> !r.error.ExtraneousValidationArgsProperty? && !r.error.MissingValidationArgsProperty?)
  {
    hide StringArrayField;
    if "request_certification" in certification && certification["request_certification"].Object? {
      var fields := certification["request_certification"].fields;
      StringErrors(fields, "RequestCertification", "certified_request_headers");
      StringErrors(fields, "RequestCertification", "certified_query_parameters");
    }
  }

  // Two header lists, or none, are such errors too.
  lemma ResponseErrors(certification: map<string, CelValue>)
    ensures var r := ValidateResponseCertification(certification);
      && (r == Fail(ExtraneousResponseCertificationProperty) <==> exists x, y ::
            && "response_certification" in certification
            && Is(certification["response_certification"], "ResponseCertification")
            && ListsHeaders(certification["response_certification"].fields, "certified_response_headers", Some(x))
            && ListsHeaders(certification["response_certification"].fields, "response_header_exclusions", Some(y)))
      && (r == Fail(MissingResponseCertificationProperty) <==>
            && "response_certification" in certification
            && Is(certification["response_certification"], "ResponseCertification")
            && ListsHeaders(certification["response_certification"].fields, "certified_response_headers", None)
            && ListsHeaders(certification["response_certification"].fields, "response_header_exclusions", None))
      && (r.Fail? ==>
            && !r.error.ExtraneousValidationArgsProperty? && !r.error.MissingValidationArgsProperty?
            && !r.error.ExtraneousRequestCertificationProperty? && !r.error.MissingRequestCertificationProperty?)
  {
    hide ResponseHeaders, ListsHeaders;
    if "response_certification" in certification && certification["response_certification"].Object? {
      var fields := certification["response_certification"].fields;
      HeaderErrors(fields, "certified_response_headers");
      HeaderErrors(fields, "response_header_exclusions");
    }
  }

  lemma HeaderErrors(fields: map<string, CelValue>, property: string)
    ensures var r := ResponseHeaders(fields, property);
      && (r.Fail? ==> r.error.UnexpectedNodeType? || r.error.UnexpectedNodeName?)
      && (r == Success(None) <==> ListsHeaders(fields, property, None))
      && (r.Success? && r.value.Some? <==> exists x :: ListsHeaders(fields, property, Some(x)))
  {
    var r := ResponseHeaders(fields, property);
    HeadersExactly(fields, property, None);
    forall x ensures r == Success(Some(x)) <==> ListsHeaders(fields, property, Some(x)) {
      HeadersExactly(fields, property, Some(x));
    }
    if property in fields && fields[property].Object? && "headers" in fields[property].fields
      && fields[property].fields["headers"].Arr? {
      ItemErrors(fields[property].fields["headers"].items, property);
    }
  }
}
