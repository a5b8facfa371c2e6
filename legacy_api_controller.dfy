/**
 * The older `Api_Controller` base class. It has the same shape as the
 * newer one, with these differences: HEAD is a known method, the entity
 * body is never parsed, POST inserts the validated input as it is (the
 * primary key included), and each field with rules gets exactly one rule,
 * named by the first entry of its rules with the second as parameters.
 */
module LegacyApiController {
  import opened PhpArray
  import opened PhpString
  import opened Kohana
  import opened ApiCommon
  import Sql
  import Arr
  import ApiController

  /** `$known_request_methods`, HEAD included. */
  const KnownRequestMethods: seq<string> := ["GET", "PUT", "PATCH", "POST", "DELETE", "HEAD", "OPTIONS"]

  lemma KnownMethodsLowered()
    ensures forall w :: w in KnownRequestMethods ==> IsUpperWord(w)
    ensures LowerAll(KnownRequestMethods) == ["get", "put", "patch", "post", "delete", "head", "options"]
  {
    assert Lower("GET") == "get";
    assert Lower("PUT") == "put";
    assert Lower("PATCH") == "patch";
    assert Lower("POST") == "post";
    assert Lower("DELETE") == "delete";
    assert Lower("HEAD") == "head";
    assert Lower("OPTIONS") == "options";
  }

  /**
   * A method is dispatched exactly when it is one of the seven known methods
   * in some letter case, and its action is then its lower-case name.
   */
  lemma DispatchedActionIsKnown(requestMethod: string)
    ensures Dispatch(requestMethod, KnownRequestMethods).Handle?
      <==> Lower(requestMethod) in ["get", "put", "patch", "post", "delete", "head", "options"]
    ensures Dispatch(requestMethod, KnownRequestMethods).Handle? ==>
      Dispatch(requestMethod, KnownRequestMethods).action == Lower(requestMethod)
  {
    DispatchIgnoresCase(requestMethod, KnownRequestMethods);
    KnownMethodsLowered();
    if Lower(requestMethod) in ["get", "put", "patch", "post", "delete", "head", "options"] {
      var i :| 0 <= i < 7 && LowerAll(KnownRequestMethods)[i] == Lower(requestMethod);
      assert KnownRequestMethods[i] in KnownRequestMethods;
    }
  }

  /** HEAD reaches the head action here, and is refused as unknown by the newer controller. */
  lemma HeadKnownOnlyToLegacy()
    ensures Dispatch("HEAD", KnownRequestMethods) == Handle("head")
    ensures Dispatch("HEAD", ApiController.KnownRequestMethods).Reject?
  {
    assert Upper("HEAD") == "HEAD";
    assert Lower("HEAD") == "head";
    assert "HEAD" !in ApiController.KnownRequestMethods;
  }

  /**
   * `Arr::get($rules, $index)`: the entry at that integer index of an array
   * of rules, null when there is none (or it is null).
   */
  function ArrGet(rules: Value, index: int): Value
  {
    if rules.Arr? && Get(rules.entries, IntKey(index)).Some? then Get(rules.entries, IntKey(index)).value
    else Null
  }

  /** The one rule of a field: the name at index 0 and the parameters at index 1. */
  function RuleFor(field: string, rules: Value): Rule
  {
    Parameterized(field, ArrGet(rules, 0), ArrGet(rules, 1))
  }

  /** The rules of the fields in order, one per field whose rules are truthy. */
  function RulesFor(fields: Assoc<string, Value>): seq<Rule>
  {
    if fields == [] then []
    else
      var n := |fields| - 1;
      RulesFor(fields[..n]) + (if Truthy(fields[n].1) then [RuleFor(fields[n].0, fields[n].1)] else [])
  }

  /** The validator `init_validations` leaves behind: no label, the rules of every field. */
  function ValidatorFor(resource: Resource, input: Assoc<string, Value>): Validator
  {
    Factory(input).(rules := RulesFor(resource.fields))
  }

  /** How many of the rules name the field. */
  function RuleCount(rules: seq<Rule>, field: string): nat
  {
    if rules == [] then 0
    else RuleCount(rules[..|rules| - 1], field) + (if rules[|rules| - 1].field == field then 1 else 0)
  }

  /** Counting over one more rule adds one exactly when it names the field. */
  lemma RuleCountSnoc(rules: seq<Rule>, r: Rule, field: string)
    ensures RuleCount(rules + [r], field) == RuleCount(rules, field) + (if r.field == field then 1 else 0)
  {
    assert (rules + [r])[..|rules|] == rules;
  }

  /** Dropping the last entry of an array with distinct keys: the rest is distinct and lacks the last key. */
  lemma DistinctKeysSnoc(fields: Assoc<string, Value>)
    requires fields != [] && DistinctKeys(fields)
    ensures var n := |fields| - 1;
      && DistinctKeys(fields[..n])
      && fields[n].0 !in Keys(fields[..n])
  {
    var n := |fields| - 1;
    var init := fields[..n];
    forall i, j | 0 <= i < j < |init| ensures init[i].0 != init[j].0 {
      assert init[i] == fields[i] && init[j] == fields[j];
    }
    forall i | 0 <= i < |init| ensures Keys(init)[i] != fields[n].0 {
      assert Keys(init)[i] == fields[i].0;
    }
  }

  /**
   * Exactly one rule per field: a field with truthy rules has one rule,
   * a field with empty (or no) rules has none.
   */
  lemma {:induction false} OneRulePerField(fields: Assoc<string, Value>, field: string)
    requires DistinctKeys(fields)
    ensures RuleCount(RulesFor(fields), field)
      == if field in Keys(fields) && Truthy(Get(fields, field).value) then 1 else 0
  {
    if fields != [] {
      var n := |fields| - 1;
      var init := fields[..n];
      DistinctKeysSnoc(fields);
      OneRulePerField(init, field);
      assert fields == init + [fields[n]];
      GetAppend(init, fields[n].0, fields[n].1, field);
      if Truthy(fields[n].1) {
        assert RulesFor(fields) == RulesFor(init) + [RuleFor(fields[n].0, fields[n].1)];
        RuleCountSnoc(RulesFor(init), RuleFor(fields[n].0, fields[n].1), field);
      } else {
        assert RulesFor(fields) == RulesFor(init) + [];
        assert RulesFor(init) + [] == RulesFor(init);
      }
    }
  }

  /**
   * Every rule is the (name, params) pair `RuleFor` takes from the rules of
   * a field with truthy rules.
   */
  lemma {:induction false} RulesComeFromRuledFields(fields: Assoc<string, Value>)
    ensures forall r :: r in RulesFor(fields) ==>
      exists i :: 0 <= i < |fields| && Truthy(fields[i].1) && r == RuleFor(fields[i].0, fields[i].1)
  {
    if fields != [] {
      var n := |fields| - 1;
      var init := fields[..n];
      RulesComeFromRuledFields(init);
      forall r | r in RulesFor(fields)
        ensures exists i :: 0 <= i < |fields| && Truthy(fields[i].1) && r == RuleFor(fields[i].0, fields[i].1)
      {
        if r in RulesFor(init) {
          var i :| 0 <= i < |init| && Truthy(init[i].1) && r == RuleFor(init[i].0, init[i].1);
          assert init[i] == fields[i];
        } else {
          assert Truthy(fields[n].1) && r == RuleFor(fields[n].0, fields[n].1);
        }
      }
    }
  }

  const NoPostDataMessage: string := "There was no POST data"

  /** `fulfill_post_request`: the validated input is inserted as it is, if there is any. */
  function PostDecision(resource: Resource, validatedInput: Assoc<string, Value>): Decision
  {
    if validatedInput == [] then ErrorReply(400, NoPostDataMessage)
    else Run(InsertFor(resource.tableName, validatedInput))
  }

  /**
   * POST is refused with 400 and no insert exactly when there is no
   * validated input; otherwise every validated field is bound, the primary
   * key included when it was supplied, where the newer controller drops it.
   */
  lemma PostDecisionKeepsIdentifier(resource: Resource, validatedInput: Assoc<string, Value>)
    ensures var d := PostDecision(resource, validatedInput);
      && (d.ErrorReply? <==> validatedInput == [])
      && (d.ErrorReply? ==> d == ErrorReply(400, NoPostDataMessage) && IssuedBy(d) == [])
      && (d.Run? ==>
            && d.statement.kind == Insert
            && Keys(d.statement.parameters) == Sql.Placeholders(Keys(validatedInput))
            && forall k :: Sql.Placeholder(k) in Keys(d.statement.parameters) <==> k in Keys(validatedInput))
    ensures resource.primaryKeyField in Keys(validatedInput) ==>
      && Sql.Placeholder(resource.primaryKeyField) in Keys(PostDecision(resource, validatedInput).statement.parameters)
      && !(ApiController.PostDecision(resource, validatedInput).Run?
           && Sql.Placeholder(resource.primaryKeyField) in Keys(ApiController.PostDecision(resource, validatedInput).statement.parameters))
  {
    Arr.PrefixedKeys(":", validatedInput);
    InsertBindingsMatchPlaceholders(validatedInput);
    ApiController.PostDecisionStripsIdentifier(resource, validatedInput);
  }

  /** A controller instance serving one request. */
  class Controller {
    const resource: Resource
    const request: Request
    const response: Response
    /** `$validated_input`. */
    var validatedInput: Assoc<string, Value>
    /** `$validator`: null until `init_validations` runs. */
    var validator: Option<Validator>
    /** The write statements handed to the persistence layer, in order. */
    var issued: seq<Statement>

    /**
     * `__construct`: JSON content type and the dispatch of the method to an
     * action, or 400 with a message body and the error action.
     */
    constructor (resource: Resource, request: Request, response: Response)
      modifies request, response
      ensures this.resource == resource && this.request == request && this.response == response
      ensures validatedInput == [] && validator == None && issued == []
      ensures var route := Dispatch(request.httpMethod, KnownRequestMethods);
        && response.contentType == Some(JsonContentType)
        && request.action == (if route.Reject? then "error" else route.action)
        && request.post == old(request.post)
        && response.status == (if route.Reject? then Some(400) else old(response.status))
        && response.body == (if route.Reject? then Some(MessageBody(route.message)) else old(response.body))
        && response.echoed == old(response.echoed)
    {
      this.resource := resource;
      this.request := request;
      this.response := response;
      validatedInput := [];
      validator := None;
      issued := [];
      new;
      response.contentType := Some(JsonContentType);
      if Upper(request.httpMethod) in KnownRequestMethods {
        request.action := Lower(request.httpMethod);
      } else {
        response.status := Some(400);
        response.body := Some(MessageBody(UnknownMethodMessage(request.httpMethod, KnownRequestMethods)));
        request.action := "error";
      }
    }

    /**
     * `error_response`: the body `{"__error": ...}` built from the code, the
     * message and the additional values, and the status.
     */
    method ErrorResponse(code: int, message: string, additional: Assoc<Key, Value>)
      modifies response
      ensures response.body == Some(ErrorBody(code, message, additional)) && response.status == Some(code)
      ensures response.contentType == old(response.contentType) && response.echoed == old(response.echoed)
    {
      var errorValues := ArrayMerge([(StrKey("__code"), Int(code)), (StrKey("__message"), Str(message))], additional);
      response.body := Some(Arr([(StrKey("__error"), Arr(errorValues))]));
      response.status := Some(code);
    }

    /** `fulfill_get_request`, over the table as the persistence layer holds it. */
    method FulfillGetRequest(table: Table)
      modifies response
      ensures var d := GetDecision(table, request.resourceId);
        && response.body == BodyOf(d)
        && response.status == Override(old(response.status), StatusOf(d, Executed(0)))
      ensures response.contentType == old(response.contentType) && response.echoed == old(response.echoed)
    {
      var requestedResourceIdentifier := request.resourceId;
      var results := Select(table, requestedResourceIdentifier);
      if results == [] && Present(requestedResourceIdentifier) {
        ErrorResponse(404, NotFoundMessage(requestedResourceIdentifier), []);
      } else {
        response.body := Some(ListValue(results));
      }
    }

    /** `init_validations`: a validator over the input and one rule per field with truthy rules. */
    method InitValidations(input: Assoc<string, Value>)
      modifies this
      ensures validator == Some(ValidatorFor(resource, input))
      ensures validatedInput == old(validatedInput) && issued == old(issued)
    {
      validator := Some(Factory(input));
      var fields := resource.fields;
      for i := 0 to |fields|
        invariant validator == Some(Factory(input).(rules := RulesFor(fields[..i])))
        invariant validatedInput == old(validatedInput) && issued == old(issued)
      {
        var (fieldName, rules) := fields[i];
        assert fields[..i + 1][..i] == fields[..i];
        assert RulesFor(fields[..i + 1])
          == RulesFor(fields[..i]) + (if Truthy(rules) then [RuleFor(fieldName, rules)] else []);
        if Truthy(rules) {
          validator := Some(validator.value.AddRule(Parameterized(fieldName, ArrGet(rules, 0), ArrGet(rules, 1))));
        } else {
          assert RulesFor(fields[..i]) + [] == RulesFor(fields[..i]);
        }
      }
      assert fields[..|fields|] == fields;
    }

    /**
     * `post_validate`: the input trimmed to the known fields is validated,
     * and becomes the validated input only when the check passes.
     */
    method PostValidate(input: Assoc<string, Value>, check: Validator -> bool) returns (valid: bool)
      requires DistinctKeys(input)
      modifies this
      ensures var trimmed := IntersectKey(input, resource.fields);
        && validator == Some(ValidatorFor(resource, trimmed))
        && valid == check(ValidatorFor(resource, trimmed))
        && validatedInput == (if valid then trimmed else old(validatedInput))
      ensures valid ==> DistinctKeys(validatedInput)
      ensures issued == old(issued)
    {
      var trimmedInput := IntersectKey(input, resource.fields);
      IntersectKeyKeys(input, resource.fields);
      InitValidations(trimmedInput);
      valid := check(validator.value);
      if valid {
        validatedInput := validator.value.data;
      }
    }

    /**
     * `fulfill_post_request`: answers as `PostDecision` decides; a created row
     * answers 201 and echoes its identifier and link.
     */
    method FulfillPostRequest(answer: DbAnswer, linkFor: int -> string)
      requires DistinctKeys(validatedInput)
      modifies this, response
      ensures var d := PostDecision(resource, old(validatedInput));
        && issued == old(issued) + IssuedBy(d)
        && response.status == Override(old(response.status), StatusOf(d, answer))
        && response.body == Override(old(response.body), BodyOf(d))
        && response.echoed == old(response.echoed) +
             (if d.Run? && answer.Executed? then
                [CreatedValue(resource.primaryKeyField, answer.insertId, linkFor(answer.insertId))]
              else [])
      ensures validatedInput == old(validatedInput) && validator == old(validator)
      ensures response.contentType == old(response.contentType)
    {
      var data := validatedInput;
      if data == [] {
        ErrorResponse(400, NoPostDataMessage, []);
        return;
      }
      var sql := Sql.BuildInsert(resource.tableName, data);
      var queryParameters := Arr.PrefixArrayKey(":", data);
      issued := issued + [Statement(Insert, sql.value, queryParameters)];
      match answer {
        case Executed(identifier) =>
          response.status := Some(201);
          response.echoed := response.echoed + [CreatedValue(resource.primaryKeyField, identifier, linkFor(identifier))];
        case DatabaseException =>
          response.status := Some(500);
      }
    }
  }
}
