/**
 * The framework objects the controllers work on. The request and the
 * response are objects the controller changes in place; the validator is
 * a value the controller builds fresh for each validation and keeps in a
 * field. What a validation rule means, `check()` and `errors()` are the
 * framework's and are not modelled: `check()` is an opaque predicate that
 * callers pass in.
 */
module Kohana {
  import opened PhpArray

  /** The HTTP request, as far as the controller reads and writes it. */
  class Request {
    /** `method()`: the HTTP verb as the client sent it. */
    const httpMethod: string
    /** `body()`: the raw entity body. */
    const body: string
    /** `controller()`: the name of the routed controller. */
    const controller: string
    /** `param('resource_id')`: the identifier in the URI, if any. */
    const resourceId: Option<string>
    /** `action()`: the action the framework will run. */
    var action: string
    /** `post()`: the form fields (or the parsed payload that replaces them). */
    var post: Assoc<string, Value>

    constructor (httpMethod: string, body: string, controller: string, resourceId: Option<string>, post: Assoc<string, Value>)
      ensures this.httpMethod == httpMethod && this.body == body && this.controller == controller
      ensures this.resourceId == resourceId && this.post == post && action == ""
    {
      this.httpMethod := httpMethod;
      this.body := body;
      this.controller := controller;
      this.resourceId := resourceId;
      this.post := post;
      action := "";
    }
  }

  /** The HTTP response under construction. */
  class Response {
    /** The `Content-Type` header. */
    var contentType: Option<string>
    /** The `HTTP/1.1` status header, by its code. */
    var status: Option<int>
    /** `body()`, as the PHP value that is JSON encoded into it. */
    var body: Option<Value>
    /** Values JSON encoded and echoed straight to the output. */
    var echoed: seq<Value>

    constructor ()
      ensures contentType == None && status == None && body == None && echoed == []
    {
      contentType := None;
      status := None;
      body := None;
      echoed := [];
    }
  }

  /**
   * A registered validation rule: a bare rule name, or a rule name with its
   * parameters (`rule($field, $name)` and `rule($field, $name, $params)`).
   */
  datatype Rule =
    | Bare(field: string, name: Value)
    | Parameterized(field: string, name: Value, params: Value)

  /**
   * `Validation`: the array it validates (which `data()` gives back), the
   * labels, the rules in registration order, and the errors recorded
   * directly with `error()`.
   */
  datatype Validator = Validator(
    data: Assoc<string, Value>,
    labels: Assoc<string, string>,
    rules: seq<Rule>,
    errors: Assoc<string, string>)
  {
    /** `label($field, $label)`. */
    function Label(field: string, text: string): Validator
    {
      this.(labels := Assign(labels, field, text))
    }

    /** `rule(...)`: one more rule, after the earlier ones. */
    function AddRule(rule: Rule): Validator
    {
      this.(rules := rules + [rule])
    }

    /** `error($field, $error)`. */
    function Error(field: string, error: string): Validator
    {
      this.(errors := Assign(errors, field, error))
    }
  }

  /** `Validation::factory($array)`. */
  function Factory(data: Assoc<string, Value>): Validator
  {
    Validator(data, [], [], [])
  }

  /**
   * `error($field, $error)` records the error on that field, replacing an
   * earlier one there, and leaves every other field's error, the data, the
   * labels and the rules as they were.
   */
  lemma ErrorRecorded(v: Validator, field: string, error: string, other: string)
    ensures Get(v.Error(field, error).errors, field) == Some(error)
    ensures other != field ==> Get(v.Error(field, error).errors, other) == Get(v.errors, other)
    ensures v.Error(field, error).data == v.data && v.Error(field, error).rules == v.rules
    ensures v.Error(field, error).labels == v.labels
  {
    AssignGet(v.errors, field, error, field);
    AssignGet(v.errors, field, error, other);
  }
}
