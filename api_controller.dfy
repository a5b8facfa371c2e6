/**
 * The newer `Api_Controller` base class: it dispatches the HTTP method to an
 * action, parses the entity body of POST / PUT / PATCH into the request's
 * post data, validates input against the concrete controller's field
 * allow-list and rules, and decides the response of GET, POST, PATCH and
 * DELETE. The database, the decoders and the validator's `check()` are
 * parameters; each handler's decision is a function, and each method is
 * proved to do what that function decides.
 */
module ApiController {
  import opened PhpArray
  import opened PhpString
  import opened Kohana
  import opened ApiCommon
  import Sql
  import Arr

  /** `$known_request_methods`. */
  const KnownRequestMethods: seq<string> := ["GET", "PUT", "PATCH", "POST", "DELETE", "OPTIONS"]

  /** `$payload_allowed_methods`: the only methods whose body is parsed. */
  const PayloadAllowedMethods: seq<string> := ["POST", "PUT", "PATCH"]

  /**
   * A method is dispatched exactly when it is one of the six known methods
   * in some letter case, and its action is then its lower-case name.
   */
  lemma DispatchedActionIsKnown(requestMethod: string)
    ensures Dispatch(requestMethod, KnownRequestMethods).Handle?
      <==> Lower(requestMethod) in ["get", "put", "patch", "post", "delete", "options"]
    ensures Dispatch(requestMethod, KnownRequestMethods).Handle? ==>
      Dispatch(requestMethod, KnownRequestMethods).action == Lower(requestMethod)
  {
    DispatchIgnoresCase(requestMethod, KnownRequestMethods);
    KnownMethodsLowered();
    if Lower(requestMethod) in ["get", "put", "patch", "post", "delete", "options"] {
      var i :| 0 <= i < 6 && LowerAll(KnownRequestMethods)[i] == Lower(requestMethod);
      assert KnownRequestMethods[i] in KnownRequestMethods;
    }
  }

  lemma KnownMethodsLowered()
    ensures forall w :: w in KnownRequestMethods ==> IsUpperWord(w)
    ensures LowerAll(KnownRequestMethods) == ["get", "put", "patch", "post", "delete", "options"]
  {
    assert Lower("GET") == "get";
    assert Lower("PUT") == "put";
    assert Lower("PATCH") == "patch";
    assert Lower("POST") == "post";
    assert Lower("DELETE") == "delete";
    assert Lower("OPTIONS") == "options";
  }

  /** The body decoders: `parse_str`, and `json_decode` (None when `json_last_error()` is set). */
  datatype Decoders = Decoders(
    parseStr: string -> Assoc<string, Value>,
    jsonDecode: string -> Option<Assoc<string, Value>>)

  /** What `parse_payload` does to the request: nothing, set its post data, or route to the error action. */
  datatype Payload = Untouched | Parsed(fields: Assoc<string, Value>) | Rejected(message: string)

  function FormParseMessage(body: string): string
  {
    "HTTP entity body failed to parse as '" + FormEncodeContentType
      + "' Entity body received was: '" + body + "'"
  }

  const JsonParseMessage: string :=
    "HTTP entity body failed to parse as '" + JsonContentType + "'  Check syntax and retry request"

  /** The `Content-Type` as the message quotes it; a missing header reads "<missing>". */
  function HeaderValue(contentType: Option<string>): string
  {
    if contentType.None? then "<missing>" else "'" + contentType.value + "'"
  }

  function ContentTypeMessage(contentType: Option<string>): string
  {
    "Unknown or missing 'Content-Type' HTTP header value."
      + "  Value found: " + HeaderValue(contentType) + "  Supported Content-Type are'"
      + JsonContentType + "' and '" + FormEncodeContentType + "'"
  }

  /**
   * The decision tree of `parse_payload`: only a POST, PUT or PATCH (exact
   * upper case) with a body that is not blank is looked at; a form-encoded
   * POST is left to the framework, a form-encoded PUT / PATCH must decode to
   * a non-empty array, JSON must decode without error, and any other (or a
   * missing) content type is refused.
   */
  function PayloadDecision(requestMethod: string, body: string, contentType: Option<string>, decoders: Decoders): Payload
  {
    if requestMethod !in PayloadAllowedMethods || Trim(body) == "" then Untouched
    else if contentType == Some(FormEncodeContentType) then
      if requestMethod == "POST" then Untouched
      else if decoders.parseStr(body) == [] then Rejected(FormParseMessage(body))
      else Parsed(decoders.parseStr(body))
    else if contentType == Some(JsonContentType) then
      if decoders.jsonDecode(body).None? then Rejected(JsonParseMessage)
      else Parsed(decoders.jsonDecode(body).value)
    else Rejected(ContentTypeMessage(contentType))
  }

  /**
   * The request is left untouched exactly when the method carries no body
   * to parse, the body is blank, or it is a form-encoded POST.
   */
  lemma PayloadUntouchedIff(requestMethod: string, body: string, contentType: Option<string>, decoders: Decoders)
    ensures PayloadDecision(requestMethod, body, contentType, decoders).Untouched?
      <==> requestMethod !in PayloadAllowedMethods || IsBlank(body)
           || (contentType == Some(FormEncodeContentType) && requestMethod == "POST")
  {
    TrimEmptyIffBlank(body);
  }

  /**
   * The post data is replaced exactly when a form-encoded PUT / PATCH decodes
   * to a non-empty array or a JSON body decodes, and it is replaced by what
   * the decoder returned.
   */
  lemma PayloadParsedIff(requestMethod: string, body: string, contentType: Option<string>, decoders: Decoders)
    ensures var p := PayloadDecision(requestMethod, body, contentType, decoders);
      && (p.Parsed? <==>
            requestMethod in PayloadAllowedMethods && !IsBlank(body)
            && ((contentType == Some(FormEncodeContentType) && requestMethod != "POST" && decoders.parseStr(body) != [])
                || (contentType == Some(JsonContentType) && decoders.jsonDecode(body).Some?)))
      && (p.Parsed? && contentType == Some(FormEncodeContentType) ==> p.fields == decoders.parseStr(body))
      && (p.Parsed? && contentType == Some(JsonContentType) ==> Some(p.fields) == decoders.jsonDecode(body))
  {
    TrimEmptyIffBlank(body);
  }

  /**
   * A body that is looked at is refused exactly when its decoder fails or
   * the content type is neither form-encoded nor JSON; a missing content type
   * is refused with "<missing>" in the message.
   */
  lemma PayloadRejectedIff(requestMethod: string, body: string, contentType: Option<string>, decoders: Decoders)
    ensures var p := PayloadDecision(requestMethod, body, contentType, decoders);
      && (p.Rejected? <==>
            requestMethod in PayloadAllowedMethods && !IsBlank(body)
            && (if contentType == Some(FormEncodeContentType) then requestMethod != "POST" && decoders.parseStr(body) == []
                else contentType == Some(JsonContentType) ==> decoders.jsonDecode(body).None?))
      && (p.Rejected? && contentType.None? ==> p.message == ContentTypeMessage(None))
  {
    TrimEmptyIffBlank(body);
  }

  /**
   * Dispatch upper-cases the method but the payload check does not: a
   * lower-case "post" reaches the post action with its body unparsed.
   */
  lemma LowercasePostDispatchedButNotParsed(body: string, contentType: Option<string>, decoders: Decoders)
    ensures Dispatch("post", KnownRequestMethods) == Handle("post")
    ensures PayloadDecision("post", body, contentType, decoders) == Untouched
  {
    DispatchedActionIsKnown("post");
    assert Lower("post") == "post";
  }

  /** The fields whose rules apply: all of them, or for PATCH only those in the input. */
  function FieldsToCheck(resource: Resource, input: Assoc<string, Value>, httpRequestMethod: string): Assoc<string, Value>
  {
    if Upper(httpRequestMethod) == "PATCH" then IntersectKey(resource.fields, input) else resource.fields
  }

  /** A rule entry: a string key is a rule name with parameters, an integer key a bare rule name. */
  function RuleOf(field: string, entry: (Key, Value)): Rule
  {
    if !entry.0.IntKey? then Parameterized(field, Str(entry.0.s), entry.1) else Bare(field, entry.1)
  }

  /** The rules of one field, from its rules value cast to an array. */
  function FieldRules(field: string, rules: Value): seq<Rule>
  {
    var entries := ToArray(rules);
    seq(|entries|, i requires 0 <= i < |entries| => RuleOf(field, entries[i]))
  }

  /** The rules of the fields, field by field and, within a field, entry by entry. */
  function RulesFor(fieldsToCheck: Assoc<string, Value>): seq<Rule>
  {
    if fieldsToCheck == [] then []
    else
      var n := |fieldsToCheck| - 1;
      RulesFor(fieldsToCheck[..n]) + FieldRules(fieldsToCheck[n].0, fieldsToCheck[n].1)
  }

  /** The validator `init_validations` leaves behind. */
  function ValidatorFor(resource: Resource, input: Assoc<string, Value>, httpRequestMethod: string): Validator
  {
    Factory(input).Label(resource.primaryKeyField, resource.primaryKeyField)
      .(rules := RulesFor(FieldsToCheck(resource, input, httpRequestMethod)))
  }

  /**
   * Rule classification: a field's rules value gives one rule per entry; a
   * string key makes a rule with parameters, an integer key a bare rule; a
   * lone rule name is one bare rule and null gives none.
   */
  lemma RuleClassification(field: string, rules: Value)
    ensures |FieldRules(field, rules)| == |ToArray(rules)|
    ensures forall i :: 0 <= i < |ToArray(rules)| ==>
      var r := FieldRules(field, rules)[i];
      && r.field == field
      && (r.Parameterized? <==> ToArray(rules)[i].0.StrKey?)
      && (r.Parameterized? ==> r.name == Str(ToArray(rules)[i].0.s) && r.params == ToArray(rules)[i].1)
      && (r.Bare? ==> r.name == ToArray(rules)[i].1)
    ensures rules.Str? ==> FieldRules(field, rules) == [Bare(field, rules)]
    ensures rules.Null? ==> FieldRules(field, rules) == []
  {
  }

  /** Every rule registered names one of the fields checked. */
  lemma {:induction false} RulesOnlyForCheckedFields(fieldsToCheck: Assoc<string, Value>)
    ensures forall r :: r in RulesFor(fieldsToCheck) ==> r.field in Keys(fieldsToCheck)
  {
    if fieldsToCheck != [] {
      var n := |fieldsToCheck| - 1;
      var init := fieldsToCheck[..n];
      RulesOnlyForCheckedFields(init);
      forall k | k in Keys(init) ensures k in Keys(fieldsToCheck) {
        var i :| 0 <= i < |init| && Keys(init)[i] == k;
        assert Keys(fieldsToCheck)[i] == k;
      }
      assert Keys(fieldsToCheck)[n] == fieldsToCheck[n].0;
    }
  }

  /** Every checked field with at least one rule entry gets a rule. */
  lemma {:induction false} RulesCoverEveryRuledField(fieldsToCheck: Assoc<string, Value>, i: int)
    requires 0 <= i < |fieldsToCheck| && ToArray(fieldsToCheck[i].1) != []
    ensures exists r :: r in RulesFor(fieldsToCheck) && r.field == fieldsToCheck[i].0
  {
    var n := |fieldsToCheck| - 1;
    if i == n {
      var r := FieldRules(fieldsToCheck[n].0, fieldsToCheck[n].1)[0];
      assert r in RulesFor(fieldsToCheck);
    } else {
      RulesCoverEveryRuledField(fieldsToCheck[..n], i);
    }
  }

  /**
   * Trimming to the allow-list: the input a validation sees holds only the
   * keys that are both known fields and in the request, with the request's
   * values, in the request's order.
   */
  lemma AllowListTrimming(resource: Resource, input: Assoc<string, Value>)
    ensures forall k :: (k in Keys(IntersectKey(input, resource.fields))
      <==> k in Keys(input) && k in Keys(resource.fields))
    ensures forall e :: e in IntersectKey(input, resource.fields) ==> e in input
  {
    IntersectKeyKeys(input, resource.fields);
  }

  /**
   * PATCH registers rules only for known fields the request supplied, and
   * for every supplied known field with at least one rule entry.
   */
  lemma PatchRulesOnlyForSuppliedFields(resource: Resource, input: Assoc<string, Value>)
    ensures forall r :: r in ValidatorFor(resource, input, "PATCH").rules ==>
      r.field in Keys(input) && r.field in Keys(resource.fields)
    ensures forall i :: (0 <= i < |resource.fields| && resource.fields[i].0 in Keys(input)
                         && ToArray(resource.fields[i].1) != []) ==>
      exists r :: r in ValidatorFor(resource, input, "PATCH").rules && r.field == resource.fields[i].0
  {
    assert Upper("PATCH") == "PATCH";
    var checked := IntersectKey(resource.fields, input);
    RulesOnlyForCheckedFields(checked);
    IntersectKeyKeys(resource.fields, input);
    forall i | 0 <= i < |resource.fields| && resource.fields[i].0 in Keys(input) && ToArray(resource.fields[i].1) != []
      ensures exists r :: r in RulesFor(checked) && r.field == resource.fields[i].0
    {
      IntersectKeyKeeps(resource.fields, input, i);
      var j :| 0 <= j < |checked| && checked[j] == resource.fields[i];
      RulesCoverEveryRuledField(checked, j);
    }
  }

  /**
   * POST registers the rules of every known field, supplied or not, and no
   * others: that is how a missing required field is caught.
   */
  lemma PostRulesCoverEveryField(resource: Resource, input: Assoc<string, Value>, i: int)
    requires 0 <= i < |resource.fields| && ToArray(resource.fields[i].1) != []
    ensures exists r :: r in ValidatorFor(resource, input, "POST").rules && r.field == resource.fields[i].0
    ensures forall r :: r in ValidatorFor(resource, input, "POST").rules ==> r.field in Keys(resource.fields)
  {
    assert Upper("POST") == "POST";
    RulesCoverEveryRuledField(resource.fields, i);
    RulesOnlyForCheckedFields(resource.fields);
  }

  /** The result of `delete_validate`: accepted, refused with an error recorded, or a call on a null validator. */
  datatype DeleteCheck = Accepted | Refused(validator: Validator) | NullValidatorCall

  const DeleteMissingIdentifier: string := "DELETE.missing_identifier"

  /**
   * `delete_validate` as written: without an identifier it records the
   * error on `$this->validator`, which nothing has set during a DELETE, so
   * the call is made on null.
   */
  function DeleteValidationAsWritten(validator: Option<Validator>, primaryKeyField: string, id: Option<string>): DeleteCheck
  {
    if Present(id) then Accepted
    else if validator.None? then NullValidatorCall
    else Refused(validator.value.Error(primaryKeyField, DeleteMissingIdentifier))
  }

  /** The DELETE request without an identifier ends in a call on a null validator. */
  lemma DeleteWithoutIdentifierCallsNullValidator(primaryKeyField: string, id: Option<string>)
    requires !Present(id)
    ensures DeleteValidationAsWritten(None, primaryKeyField, id) == NullValidatorCall
  {
  }

  /** `delete_validate` with a validator created before the error is recorded. */
  function DeleteValidation(validator: Option<Validator>, primaryKeyField: string, id: Option<string>): DeleteCheck
  {
    if Present(id) then Accepted
    else
      var v := if validator.None? then Factory([]) else validator.value;
      Refused(v.Error(primaryKeyField, DeleteMissingIdentifier))
  }

  /**
   * DELETE validation accepts exactly when the identifier is given,
   * otherwise records "DELETE.missing_identifier" on the primary-key field;
   * it agrees with the code as written wherever that does not fail.
   */
  lemma DeleteValidationRefusesWithoutIdentifier(validator: Option<Validator>, primaryKeyField: string, id: Option<string>)
    ensures var c := DeleteValidation(validator, primaryKeyField, id);
      && !c.NullValidatorCall?
      && (c.Accepted? <==> Present(id))
      && (c.Refused? ==> Get(c.validator.errors, primaryKeyField) == Some(DeleteMissingIdentifier))
      && (!DeleteValidationAsWritten(validator, primaryKeyField, id).NullValidatorCall? ==>
            DeleteValidationAsWritten(validator, primaryKeyField, id) == c)
  {
    var v := if validator.None? then Factory([]) else validator.value;
    ErrorRecorded(v, primaryKeyField, DeleteMissingIdentifier, primaryKeyField);
  }

  const NoPostDataMessage: string := "There was no POST data"
  const NoPatchDataMessage: string := "There was no PATCH data"

  /** `fulfill_post_request`: the primary key is dropped; what is left is inserted, if anything. */
  function PostDecision(resource: Resource, validatedInput: Assoc<string, Value>): Decision
  {
    var data := Unset(validatedInput, resource.primaryKeyField);
    if data == [] then ErrorReply(400, NoPostDataMessage)
    else Run(InsertFor(resource.tableName, data))
  }

  /**
   * POST is refused with 400 and no insert exactly when the validated input
   * holds nothing but (at most) the primary key; otherwise the INSERT binds
   * one parameter per column placeholder, every validated field except the
   * primary key, which is never bound.
   */
  lemma PostDecisionStripsIdentifier(resource: Resource, validatedInput: Assoc<string, Value>)
    ensures var d := PostDecision(resource, validatedInput);
      var pk := resource.primaryKeyField;
      && (d.ErrorReply? || d.Run?)
      && (d.ErrorReply? <==> forall k :: k in Keys(validatedInput) ==> k == pk)
      && (d.ErrorReply? ==> d == ErrorReply(400, NoPostDataMessage) && IssuedBy(d) == [])
      && (d.Run? ==>
            && d.statement.kind == Insert
            && Keys(d.statement.parameters) == Sql.Placeholders(Keys(Unset(validatedInput, pk)))
            && Sql.Placeholder(pk) !in Keys(d.statement.parameters)
            && forall k :: k != pk ==>
                 (Sql.Placeholder(k) in Keys(d.statement.parameters) <==> k in Keys(validatedInput)))
  {
    var pk := resource.primaryKeyField;
    var data := Unset(validatedInput, pk);
    UnsetKeys(validatedInput, pk);
    Arr.PrefixedKeys(":", data);
    InsertBindingsMatchPlaceholders(data);
    if data != [] {
      assert data[0].0 in Keys(data);
      assert data[0].0 != pk && data[0].0 in Keys(validatedInput);
    } else {
      forall k | k in Keys(validatedInput) ensures k == pk {
        assert k !in Keys(data);
      }
    }
  }

  /** "Resource: '<controller>', with identifier: '<id>' was not found". */
  function PatchNotFoundMessage(controller: string, id: Option<string>): string
  {
    "Resource: '" + controller + "', with identifier: '" + IdText(id) + "' was not found"
  }

  /**
   * `fulfill_patch_request` as written: the emptiness check comes before the
   * primary key is dropped, so input holding only the primary key reaches
   * `build_update` with no fields, whose `InvalidArgumentException` nothing
   * catches.
   */
  function PatchDecisionAsWritten(resource: Resource, validatedInput: Assoc<string, Value>, controller: string,
                                  primaryKeyValue: Option<string>, table: Table): Decision
  {
    if validatedInput == [] then ErrorReply(400, NoPatchDataMessage)
    else if Select(table, primaryKeyValue) == [] then ErrorReply(404, PatchNotFoundMessage(controller, primaryKeyValue))
    else
      var data := Unset(validatedInput, resource.primaryKeyField);
      if data == [] then Uncaught(Sql.InvalidArgumentException(Sql.EmptyFieldsMessage))
      else Run(UpdateFor(resource.tableName, resource.primaryKeyField, data, primaryKeyValue))
  }

  /** A PATCH of an existing row whose input holds only the primary key escapes with the exception. */
  lemma PatchOfIdentifierOnlyThrows(resource: Resource, value: Value, controller: string,
                                    primaryKeyValue: Option<string>, table: Table)
    requires Select(table, primaryKeyValue) != []
    ensures PatchDecisionAsWritten(resource, [(resource.primaryKeyField, value)], controller, primaryKeyValue, table)
      == Uncaught(Sql.InvalidArgumentException(Sql.EmptyFieldsMessage))
  {
    assert Unset([(resource.primaryKeyField, value)], resource.primaryKeyField) == [];
  }

  /** `fulfill_patch_request` with the emptiness check repeated after the primary key is dropped. */
  function PatchDecision(resource: Resource, validatedInput: Assoc<string, Value>, controller: string,
                         primaryKeyValue: Option<string>, table: Table): Decision
  {
    if validatedInput == [] then ErrorReply(400, NoPatchDataMessage)
    else if Select(table, primaryKeyValue) == [] then ErrorReply(404, PatchNotFoundMessage(controller, primaryKeyValue))
    else
      var data := Unset(validatedInput, resource.primaryKeyField);
      if data == [] then ErrorReply(400, NoPatchDataMessage)
      else Run(UpdateFor(resource.tableName, resource.primaryKeyField, data, primaryKeyValue))
  }

  /**
   * PATCH answers 400 when there is nothing to update, 404 when no row is
   * selected by the identifier (with distinct keys and a truthy identifier:
   * when no row has it), and otherwise runs an UPDATE whose parameters are
   * the SET placeholders in order followed by the WHERE placeholder, bound
   * back to the identifier. No exception escapes, and only the throw of the
   * code as written is replaced.
   */
  lemma PatchDecisionOutcomes(resource: Resource, validatedInput: Assoc<string, Value>, controller: string,
                              primaryKeyValue: Option<string>, table: Table)
    ensures var d := PatchDecision(resource, validatedInput, controller, primaryKeyValue, table);
      var pk := resource.primaryKeyField;
      var data := Unset(validatedInput, pk);
      var rows := Select(table, primaryKeyValue);
      && (d.ErrorReply? || d.Run?)
      && (d == ErrorReply(400, NoPatchDataMessage) <==> validatedInput == [] || (rows != [] && data == []))
      && (d == ErrorReply(404, PatchNotFoundMessage(controller, primaryKeyValue)) <==> validatedInput != [] && rows == [])
      && (d.Run? ==>
            && d.statement.kind == Update
            && d.statement.sql == Sql.UpdateStatement(resource.tableName, pk, Keys(data))
            && Keys(d.statement.parameters) == Sql.Placeholders(Keys(data)) + [Sql.Placeholder(pk)]
            && Get(d.statement.parameters, Sql.Placeholder(pk)) == Some(IdValue(primaryKeyValue)))
      && (d != PatchDecisionAsWritten(resource, validatedInput, controller, primaryKeyValue, table) ==>
            PatchDecisionAsWritten(resource, validatedInput, controller, primaryKeyValue, table).Uncaught?)
      && (DistinctKeys(table) && Present(primaryKeyValue) ==> (rows == [] <==> primaryKeyValue.value !in Keys(table)))
  {
    var pk := resource.primaryKeyField;
    var data := Unset(validatedInput, pk);
    UnsetKeys(validatedInput, pk);
    UpdateBindingsMatchPlaceholders(data, pk, IdValue(primaryKeyValue));
    Arr.PrefixedGet(":", Assign(data, pk, IdValue(primaryKeyValue)), pk);
    AssignGet(data, pk, IdValue(primaryKeyValue), pk);
    if DistinctKeys(table) {
      SelectEmptyIff(table, primaryKeyValue);
    }
  }

  /** `fulfill_delete_request`: delete the selected row if there is one, else answer 204 at once. */
  function DeleteDecision(resource: Resource, primaryKeyValue: Option<string>, table: Table): Decision
  {
    if Select(table, primaryKeyValue) != [] then Run(DeleteFor(resource.tableName, resource.primaryKeyField, primaryKeyValue))
    else NoContent
  }

  /**
   * DELETE answers 204 whether or not the row existed, never 404 and with no
   * body; only a failing DELETE statement answers 500. The statement binds
   * just the identifier.
   */
  lemma DeleteIsNoContentUnlessDbFails(resource: Resource, primaryKeyValue: Option<string>, table: Table, answer: DbAnswer)
    ensures var d := DeleteDecision(resource, primaryKeyValue, table);
      && StatusOf(d, answer) == Some(if answer.DatabaseException? && Select(table, primaryKeyValue) != [] then 500 else 204)
      && BodyOf(d) == None
      && (d.Run? ==>
            && d.statement.kind == Delete
            && Keys(d.statement.parameters) == [Sql.Placeholder(resource.primaryKeyField)]
            && Get(d.statement.parameters, Sql.Placeholder(resource.primaryKeyField)) == Some(IdValue(primaryKeyValue)))
  {
    var bound := [(resource.primaryKeyField, IdValue(primaryKeyValue))];
    Arr.PrefixedKeys(":", bound);
    Arr.PrefixedGet(":", bound, resource.primaryKeyField);
  }

  /** A controller instance serving one request. */
  class Controller {
    const resource: Resource
    const request: Request
    const response: Response
    /** `$validated_input`. */
    var validatedInput: Assoc<string, Value>
    /** `$validator`: null until `init_validations` runs. */
    var validator: Option<Validator>
    /** The write statements handed to the persistence layer, in order. */
    var issued: seq<Statement>

    /**
     * `__construct`: JSON content type, dispatch of the method to an action
     * (or to the error action with 400), then the payload parse, whose
     * refusal overrides the body of an earlier one.
     */
    constructor (resource: Resource, request: Request, response: Response,
                 contentType: Option<string>, decoders: Decoders)
      modifies request, response
      ensures this.resource == resource && this.request == request && this.response == response
      ensures validatedInput == [] && validator == None && issued == []
      ensures var route := Dispatch(request.httpMethod, KnownRequestMethods);
        var payload := PayloadDecision(request.httpMethod, request.body, contentType, decoders);
        && response.contentType == Some(JsonContentType)
        && request.action == (if route.Reject? || payload.Rejected? then "error" else route.action)
        && request.post == (if payload.Parsed? then payload.fields else old(request.post))
        && response.status == (if route.Reject? || payload.Rejected? then Some(400) else old(response.status))
        && response.body == (if payload.Rejected? then Some(MessageBody(payload.message))
                             else if route.Reject? then Some(MessageBody(route.message))
                             else old(response.body))
        && response.echoed == old(response.echoed)
    {
      this.resource := resource;
      this.request := request;
      this.response := response;
      validatedInput := [];
      validator := None;
      issued := [];
      new;
      response.contentType := Some(JsonContentType);
      if Upper(request.httpMethod) in KnownRequestMethods {
        request.action := Lower(request.httpMethod);
      } else {
        var message := UnknownMethodMessage(request.httpMethod, KnownRequestMethods);
        RouteToError(request, response, 400, message);
      }
      var successfulParse := ParsePayload(request, response, contentType, decoders);
    }

    /** `route_to_error`: the status, a body with just the message, and the error action. */
    static method RouteToError(request: Request, response: Response, errorCode: int, message: string)
      modifies request, response
      ensures response.status == Some(errorCode) && response.body == Some(MessageBody(message))
      ensures request.action == "error" && request.post == old(request.post)
      ensures response.contentType == old(response.contentType) && response.echoed == old(response.echoed)
    {
      response.status := Some(errorCode);
      response.body := Some(MessageBody(message));
      request.action := "error";
    }

    /** `parse_payload`, with `$_SERVER['CONTENT_TYPE']` as a parameter. */
    static method ParsePayload(request: Request, response: Response, contentType: Option<string>, decoders: Decoders)
      returns (successfulParse: bool)
      modifies request, response
      ensures var payload := PayloadDecision(request.httpMethod, request.body, contentType, decoders);
        && successfulParse == payload.Parsed?
        && request.post == (if payload.Parsed? then payload.fields else old(request.post))
        && request.action == (if payload.Rejected? then "error" else old(request.action))
        && response.status == (if payload.Rejected? then Some(400) else old(response.status))
        && response.body == (if payload.Rejected? then Some(MessageBody(payload.message)) else old(response.body))
        && response.contentType == old(response.contentType) && response.echoed == old(response.echoed)
    {
      successfulParse := false;
      var requestPayloadBody := request.body;
      var requestMethod := request.httpMethod;
      if requestMethod in PayloadAllowedMethods && Trim(requestPayloadBody) != "" {
        if contentType == Some(FormEncodeContentType) {
          // a form-encoded POST is already in post()
          if requestMethod != "POST" {
            var parsedPayload := decoders.parseStr(requestPayloadBody);
            if parsedPayload == [] {
              RouteToError(request, response, 400, FormParseMessage(requestPayloadBody));
            } else {
              request.post := parsedPayload;
              successfulParse := true;
            }
          }
        } else if contentType == Some(JsonContentType) {
          var parsedPayload := decoders.jsonDecode(requestPayloadBody);
          if parsedPayload.None? {
            RouteToError(request, response, 400, JsonParseMessage);
          } else {
            request.post := parsedPayload.value;
            successfulParse := true;
          }
        } else {
          RouteToError(request, response, 400, ContentTypeMessage(contentType));
        }
      }
    }

    /**
     * `error_response`: the body `{"__error": ...}` built from the code, the
     * message and the additional values, and the status.
     */
    method ErrorResponse(code: int, message: string, additional: Assoc<Key, Value>)
      modifies response
      ensures response.body == Some(ErrorBody(code, message, additional)) && response.status == Some(code)
      ensures response.contentType == old(response.contentType) && response.echoed == old(response.echoed)
    {
      var errorValues := ArrayMerge([(StrKey("__code"), Int(code)), (StrKey("__message"), Str(message))], additional);
      response.body := Some(Arr([(StrKey("__error"), Arr(errorValues))]));
      response.status := Some(code);
    }

    /** `fulfill_get_request`, over the table as the persistence layer holds it. */
    method FulfillGetRequest(table: Table)
      modifies response
      ensures var d := GetDecision(table, request.resourceId);
        && response.body == BodyOf(d)
        && response.status == Override(old(response.status), StatusOf(d, Executed(0)))
      ensures response.contentType == old(response.contentType) && response.echoed == old(response.echoed)
    {
      var requestedResourceIdentifier := request.resourceId;
      var results := Select(table, requestedResourceIdentifier);
      if results == [] && Present(requestedResourceIdentifier) {
        ErrorResponse(404, NotFoundMessage(requestedResourceIdentifier), []);
      } else {
        response.body := Some(ListValue(results));
      }
    }

    /**
     * `init_validations`: a validator over the input, the primary key
     * labelled, and the rules of the fields to check registered one entry
     * at a time.
     */
    method InitValidations(input: Assoc<string, Value>, httpRequestMethod: string)
      modifies this
      ensures validator == Some(ValidatorFor(resource, input, httpRequestMethod))
      ensures validatedInput == old(validatedInput) && issued == old(issued)
    {
      validator := Some(Factory(input));
      var fieldsToCheck := resource.fields;
      if Upper(httpRequestMethod) == "PATCH" {
        fieldsToCheck := IntersectKey(fieldsToCheck, input);
      }
      validator := Some(validator.value.Label(resource.primaryKeyField, resource.primaryKeyField));
      ghost var labelled := validator.value;
      for i := 0 to |fieldsToCheck|
        invariant validator == Some(labelled.(rules := RulesFor(fieldsToCheck[..i])))
        invariant validatedInput == old(validatedInput) && issued == old(issued)
      {
        var (fieldName, rules) := fieldsToCheck[i];
        var ruleEntries := ToArray(rules);
        ghost var registered := RulesFor(fieldsToCheck[..i]);
        ghost var fieldRules := FieldRules(fieldName, rules);
        assert registered + fieldRules[..0] == registered;
        for j := 0 to |ruleEntries|
          invariant validator == Some(labelled.(rules := registered + fieldRules[..j]))
          invariant validatedInput == old(validatedInput) && issued == old(issued)
        {
          var (indexOrRule, ruleNameOrRuleMeta) := ruleEntries[j];
          assert fieldRules[j] == RuleOf(fieldName, ruleEntries[j]);
          if !indexOrRule.IntKey? {
            validator := Some(validator.value.AddRule(Parameterized(fieldName, Str(indexOrRule.s), ruleNameOrRuleMeta)));
          } else {
            validator := Some(validator.value.AddRule(Bare(fieldName, ruleNameOrRuleMeta)));
          }
          assert registered + fieldRules[..j + 1] == (registered + fieldRules[..j]) + [fieldRules[j]];
        }
        assert fieldRules[..|ruleEntries|] == fieldRules;
        assert fieldsToCheck[..i + 1][..i] == fieldsToCheck[..i];
      }
      assert fieldsToCheck[..|fieldsToCheck|] == fieldsToCheck;
    }

    /**
     * `post_validate`: the input trimmed to the known fields is validated
     * with the rules of every field, and becomes the validated input only
     * when the check passes.
     */
    method PostValidate(input: Assoc<string, Value>, check: Validator -> bool) returns (valid: bool)
      requires DistinctKeys(input)
      modifies this
      ensures var trimmed := IntersectKey(input, resource.fields);
        && validator == Some(ValidatorFor(resource, trimmed, "POST"))
        && valid == check(ValidatorFor(resource, trimmed, "POST"))
        && validatedInput == (if valid then trimmed else old(validatedInput))
      ensures valid ==> DistinctKeys(validatedInput)
      ensures issued == old(issued)
    {
      valid := false;
      var trimmedInput := IntersectKey(input, resource.fields);
      IntersectKeyKeys(input, resource.fields);
      InitValidations(trimmedInput, "POST");
      valid := check(validator.value);
      if valid {
        validatedInput := validator.value.data;
      }
    }

    /**
     * `patch_validate`: the trimmed input is validated with the rules of the
     * supplied fields only; without an identifier the check is not run,
     * "PATCH.missing_identifier" is recorded on the primary key and the
     * validated input is left as it was.
     */
    method PatchValidate(resourceIdentifier: Option<string>, input: Assoc<string, Value>, check: Validator -> bool)
      returns (valid: bool)
      requires DistinctKeys(input)
      modifies this
      ensures valid ==> DistinctKeys(validatedInput)
      ensures var trimmed := IntersectKey(input, resource.fields);
        var v := ValidatorFor(resource, trimmed, "PATCH");
        if !Present(resourceIdentifier) then
          && !valid
          && validator == Some(v.Error(resource.primaryKeyField, "PATCH.missing_identifier"))
          && validatedInput == old(validatedInput)
        else
          && validator == Some(v)
          && valid == check(v)
          && validatedInput == (if valid then trimmed else old(validatedInput))
      ensures issued == old(issued)
    {
      valid := false;
      var trimmedInput := IntersectKey(input, resource.fields);
      IntersectKeyKeys(input, resource.fields);
      InitValidations(trimmedInput, "PATCH");
      if !Present(resourceIdentifier) {
        validator := Some(validator.value.Error(resource.primaryKeyField, "PATCH.missing_identifier"));
        return;
      }
      valid := check(validator.value);
      if valid {
        validatedInput := validator.value.data;
      }
    }

    /**
     * `delete_validate`, creating the validator when none exists before the
     * error is recorded (see `DeleteValidationAsWritten` for the code as
     * written).
     */
    method DeleteValidate(resourceIdentifier: Option<string>) returns (valid: bool)
      modifies this
      ensures var c := DeleteValidation(old(validator), resource.primaryKeyField, resourceIdentifier);
        && valid == c.Accepted?
        && validator == (if c.Refused? then Some(c.validator) else old(validator))
      ensures validatedInput == old(validatedInput) && issued == old(issued)
    {
      valid := false;
      if !Present(resourceIdentifier) {
        if validator.None? {
          validator := Some(Factory([]));
        }
        validator := Some(validator.value.Error(resource.primaryKeyField, DeleteMissingIdentifier));
        return;
      }
      valid := true;
    }

    /**
     * `fulfill_post_request`: answers as `PostDecision` decides; a created row
     * answers 201 and echoes its identifier and link.
     */
    method FulfillPostRequest(answer: DbAnswer, linkFor: int -> string)
      requires DistinctKeys(validatedInput)
      modifies this, response
      ensures var d := PostDecision(resource, old(validatedInput));
        && issued == old(issued) + IssuedBy(d)
        && response.status == Override(old(response.status), StatusOf(d, answer))
        && response.body == Override(old(response.body), BodyOf(d))
        && response.echoed == old(response.echoed) +
             (if d.Run? && answer.Executed? then
                [CreatedValue(resource.primaryKeyField, answer.insertId, linkFor(answer.insertId))]
              else [])
      ensures validatedInput == old(validatedInput) && validator == old(validator)
      ensures response.contentType == old(response.contentType)
    {
      var data := validatedInput;
      // the identifier is not inserted
      data := Unset(data, resource.primaryKeyField);
      if data == [] {
        ErrorResponse(400, NoPostDataMessage, []);
        return;
      }
      var sql := Sql.BuildInsert(resource.tableName, data);
      UnsetKeys(validatedInput, resource.primaryKeyField);
      var parameters := Arr.PrefixArrayKey(":", data);
      issued := issued + [Statement(Insert, sql.value, parameters)];
      match answer {
        case Executed(identifier) =>
          response.status := Some(201);
          response.echoed := response.echoed + [CreatedValue(resource.primaryKeyField, identifier, linkFor(identifier))];
        case DatabaseException =>
          response.status := Some(500);
      }
    }

    /**
     * `fulfill_patch_request` (with the emptiness check repeated after the
     * primary key is dropped, see `PatchDecisionAsWritten`).
     */
    method FulfillPatchRequest(primaryKeyValue: Option<string>, table: Table, answer: DbAnswer)
      requires DistinctKeys(validatedInput)
      modifies this, response
      ensures var d := PatchDecision(resource, old(validatedInput), request.controller, primaryKeyValue, table);
        && issued == old(issued) + IssuedBy(d)
        && response.status == Override(old(response.status), StatusOf(d, answer))
        && response.body == Override(old(response.body), BodyOf(d))
      ensures validatedInput == old(validatedInput) && validator == old(validator)
      ensures response.contentType == old(response.contentType) && response.echoed == old(response.echoed)
    {
      var data := validatedInput;
      if data == [] {
        ErrorResponse(400, NoPatchDataMessage, []);
        return;
      }
      var existingResource := Select(table, primaryKeyValue);
      if existingResource == [] {
        ErrorResponse(404, PatchNotFoundMessage(request.controller, primaryKeyValue), []);
        return;
      }
      // the identifier is not updated
      data := Unset(data, resource.primaryKeyField);
      if data == [] {
        ErrorResponse(400, NoPatchDataMessage, []);
        return;
      }
      var sql := Sql.BuildUpdate(resource.tableName, resource.primaryKeyField, data);
      UnsetKeys(validatedInput, resource.primaryKeyField);
      AssignKeys(data, resource.primaryKeyField, IdValue(primaryKeyValue));
      data := Assign(data, resource.primaryKeyField, IdValue(primaryKeyValue));
      var parameters := Arr.PrefixArrayKey(":", data);
      issued := issued + [Statement(Update, sql.value, parameters)];
      match answer {
        case Executed(_) =>
          response.status := Some(204);
        case DatabaseException =>
          response.status := Some(500);
      }
    }

    /** `fulfill_delete_request`: answers as `DeleteDecision` decides. */
    method FulfillDeleteRequest(primaryKeyValue: Option<string>, table: Table, answer: DbAnswer)
      modifies this, response
      ensures var d := DeleteDecision(resource, primaryKeyValue, table);
        && issued == old(issued) + IssuedBy(d)
        && response.status == Override(old(response.status), StatusOf(d, answer))
        && response.body == old(response.body)
      ensures validatedInput == old(validatedInput) && validator == old(validator)
      ensures response.contentType == old(response.contentType) && response.echoed == old(response.echoed)
    {
      var existingResource := Select(table, primaryKeyValue);
      if existingResource != [] {
        var sql := Sql.BuildDelete(resource.tableName, resource.primaryKeyField);
        var parameters := Arr.PrefixArrayKey(":", [(resource.primaryKeyField, IdValue(primaryKeyValue))]);
        issued := issued + [Statement(Delete, sql, parameters)];
        match answer {
          case Executed(_) =>
            response.status := Some(204);
          case DatabaseException =>
            response.status := Some(500);
        }
      } else {
        // nothing to delete
        response.status := Some(204);
      }
    }
  }
}
