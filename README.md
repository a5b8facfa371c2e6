# Kohana simple REST base controller, modelled in Dafny

This project models the core of a Kohana 3 REST module:

- `Util_Sql` builds parameterised `INSERT`, `UPDATE` and `DELETE` text from a table name, an identifier column and the keys of a field map.
- `Util_Arr::prefix_array_key` turns a field map into the `:name`-keyed parameters of a statement.
- Two versions of the `Api_Controller` base class turn an HTTP request into a response.

The controllers decide:

- which action a method is dispatched to;
- when and how the entity body is parsed into the request's post data;
- which input fields a validation sees, and which rules it registers;
- what GET, POST, PATCH and DELETE answer (200 with rows, 201, 204, 400, 404 or 500) and which statement each hands to the database.

The modules are:

- `PhpArray`: PHP's ordered arrays as sequences of key/value pairs, with `array_intersect_key`, `array_merge`, assignment, `unset` and truthiness.
- `PhpString`: `strtoupper`, `strtolower`, `trim` and `implode`.
- `Sql` and `Arr`: the two utility classes.
- `Kohana`: the request and response objects, which the controller changes in place, and the validator, modelled as a value.
- `ApiCommon`: what both controllers share. This is the row lookup, the error bodies and the statements with their bound parameters.
- `ApiController`: the newer controller in `classes/Api/Controller.php`.
- `LegacyApiController`: the older controller in `classes/api/controller.php`.

Each request handler has a decision function (`GetDecision`, `PostDecision`, `PatchDecision`, `DeleteDecision`). The lemmas prove what the source promises about each decision. The class methods work on the request, the response and the controller's fields step by step, as the PHP does. Each method is proved to set the status, the body and the issued statements that its decision function prescribes.

The database is a parameter. The table passed in stands for the persisted rows. A `DbAnswer` says whether a write statement ran (and with which generated identifier) or raised `Database_Exception`. The body decoders (`parse_str`, `json_decode`), the `Content-Type` header and the validator's `check()` are parameters too.

The form-encoded branch of `parse_payload` tests `$request_method != 'POST'` (classes/Api/Controller.php:564). That is a comparison, not an assignment, so the model follows the code: a form-encoded POST is left to the framework, and a form-encoded PUT or PATCH is decoded.

## Model

| member | source | states |
|---|---|---|
| Sql.BuildInsert | classes/util/Sql.php:13-22 | An empty field map gives `InvalidArgumentException("Param: $fields cannot be empty")`. Otherwise the result is ``INSERT INTO `t` (`k1`, …) VALUES(:k1, …)``, with every key of the map once, in key order, in both lists. |
| Sql.ImplodeWrapped | classes/util/Sql.php:19-20 | Wrapping the whole of `implode("`, `", keys)` in back-ticks quotes each key separately; the same holds for the `:` placeholders. |
| Sql.BuildUpdate | classes/util/Sql.php:31-46 | An empty field map gives the same exception. Otherwise the loop builds one ``"`k` = :k"`` term per key, in key order, and the result is ``UPDATE `t` SET … WHERE `id` = :id``. |
| Sql.BuildDelete | classes/util/Sql.php:53-58 | There is no precondition. The result is ``DELETE FROM `t` `` followed by the same WHERE term an UPDATE ends with. |
| Sql.InsertColumnsMatchPlaceholders | classes/util/Sql.php:19-21 | Column i and placeholder i of an INSERT name the same key, and both lists are as long as the key list. |
| Sql.AssignmentsPairColumnsWithPlaceholders | classes/util/Sql.php:39-43 | SET term i pairs quoted column i with placeholder i. |
| Sql.InsertIgnoresValues | classes/util/Sql.php:19-21 | Two field maps with the same keys in the same order give the same INSERT text, whatever their values. |
| Arr.PrefixArrayKey | simple_rest/classes/util/Arr.php:5-13 | The loop fills a fresh array, entry by entry in input order. The result is every input entry with its key prefixed and its value unchanged. |
| Arr.PrefixedKeys | simple_rest/classes/util/Arr.php:8-12 | The result has the input's size. Its key i is the prefix plus input key i. A key is in the input exactly when its prefixed form is in the result. An empty input gives an empty result. |
| Arr.PrefixInjective | simple_rest/classes/util/Arr.php:10 | With a fixed prefix, two different keys never collide. |
| Arr.PrefixedDistinct | simple_rest/classes/util/Arr.php:8-10 | Distinct input keys stay distinct, so no entry overwrites another. |
| Arr.PrefixedGet | simple_rest/classes/util/Arr.php:10 | `result[prefix . k]` reads exactly as `input[k]` for every k, present or not. |
| PhpArray.IntersectKeyKeys | classes/Api/Controller.php:210 | `array_intersect_key` keeps exactly the keys in both arrays, with the first array's entries, and keeps keys distinct. |
| PhpArray.UnsetKeys | classes/Api/Controller.php:273 | `unset` removes exactly the one key, keeps every other key and entry, and changes nothing when the key is absent. |
| PhpString.UpperMatchIffLowerMatch | classes/Api/Controller.php:66-68 | For an upper-case method name w, `strtoupper(m) == w` exactly when `strtolower(m)` is w in lower case. |
| PhpString.TrimEmptyIffBlank | classes/Api/Controller.php:556 | `trim(body) == ''` exactly when the body is made only of the characters `trim` strips. |
| Kohana.ErrorRecorded | classes/Api/Controller.php:238-239 | `error($field, $error)` records that error on that field and leaves the other fields' errors, the data, the labels and the rules alone. |
| ApiCommon.PresentIff | classes/Api/Controller.php:135 | An identifier counts as given only when it is present and is neither "" nor "0". |
| ApiCommon.Select | classes/Api/Controller.php:132-140 | `get_persisted_resource` selects every row of the table, in table order. With a truthy identifier it adds the `where` on the primary key and keeps only the rows whose key equals it. |
| ApiCommon.RowsWithIdLookup | classes/Api/Controller.php:132-140 | When primary keys are distinct, the lookup by identifier finds the one row with that key, or nothing. |
| ApiCommon.SelectEmptyIff | classes/Api/Controller.php:132-140 | With a truthy identifier the selection is empty exactly when no row has it. Without one, every row is selected. |
| ApiCommon.GetDecision | classes/Api/Controller.php:111-125 | `fulfill_get_request` in both controllers (also classes/api/controller.php:88-107) answers 404 with "Resource with identifier [id] Not Found" when the selection is empty although a truthy identifier was given. Otherwise the body is the list of the selected rows and the status is left alone. |
| ApiCommon.GetNotFoundIff | classes/Api/Controller.php:111-125 | GET answers 404 exactly when a truthy identifier names no row. Otherwise it lists every row, or only the named row. |
| ApiCommon.Dispatch | classes/Api/Controller.php:66-75 | The constructors of both controllers (also classes/api/controller.php:48-62) test `in_array(strtoupper($method), known)`. A hit is handled by the action named by `strtolower($method)`. A miss is refused with "HTTP Method m not known.Known method: " followed by the known list joined by ", ". |
| ApiCommon.DispatchIgnoresCase | classes/Api/Controller.php:66-75 | A method is dispatched exactly when some known method matches it ignoring case. The action is then its lower-case form. |
| ApiCommon.MergeKeepsOrder | classes/Api/Controller.php:428-434 | `array_merge` keeps the keys of the first array at their positions. |
| ApiCommon.MergeGet | classes/Api/Controller.php:428-434 | After `array_merge`, a string key reads as in the second array if that array has the key, else as in the first. |
| ApiCommon.ErrorValues | classes/Api/Controller.php:428-434 | The `__error` array is `array_merge(array('__code' => code, '__message' => message), additional)`. |
| ApiCommon.ErrorValuesShape | classes/Api/Controller.php:426-438 | The error values start with `__code` and then `__message`. Every string key of the additional array reads as given there. The code and the message survive unless the additional array overrides them. |
| ApiCommon.InsertBindingsMatchPlaceholders | classes/Api/Controller.php:279-284 | The bound parameters of an INSERT are exactly its placeholders, in the same order. |
| ApiCommon.UpdateBindingsMatchPlaceholders | classes/Api/Controller.php:358-365 | With the identifier bound back after the data, the parameters are the SET placeholders in order, then the WHERE placeholder. |
| ApiCommon.InsertFor | classes/Api/Controller.php:279-284 | The INSERT a POST issues: the text of `build_insert` over the data's keys, with the data bound under `:`-prefixed keys. |
| ApiCommon.UpdateFor | classes/Api/Controller.php:359-365 | The UPDATE a PATCH issues: the text of `build_update` over the data's keys (the identifier already removed), with the data bound under `:`-prefixed keys. The identifier is assigned back after the data for the WHERE placeholder. |
| ApiCommon.DeleteFor | classes/Api/Controller.php:388-393 | The DELETE a DELETE issues: the text of `build_delete`, with only the identifier bound under `:` plus the primary-key field. |
| ApiController.KnownMethodsLowered | classes/Api/Controller.php:37-44 | The six known methods are upper-case words, and their lower-case forms are the action names. |
| ApiController.DispatchedActionIsKnown | classes/Api/Controller.php:66-75 | A method is dispatched exactly when its lower-case form is get, put, patch, post, delete or options, and the action is that form. |
| ApiController.PayloadUntouchedIff | classes/Api/Controller.php:555-579 | The request is left alone exactly in three cases: the method is not POST, PUT or PATCH (case-sensitive); the body is blank; or it is a form-encoded POST. |
| ApiController.PayloadParsedIff | classes/Api/Controller.php:558-593 | The post data is replaced exactly when a form-encoded PUT or PATCH decodes to a non-empty array, or a JSON body decodes without error. It is replaced by the decoder's result. |
| ApiController.PayloadRejectedIff | classes/Api/Controller.php:558-600 | A body that is read is refused in these cases: the form decode is empty, the JSON decode fails, or the content type is neither of the two. A missing type is reported as `<missing>`. |
| ApiController.LowercasePostDispatchedButNotParsed | classes/Api/Controller.php:555-556 | A lower-case `post` is dispatched to the post action, but its body is never parsed. |
| ApiController.PayloadDecision | classes/Api/Controller.php:555-600 | The request is untouched unless the method is exactly POST, PUT or PATCH and the trimmed body is not empty. A form-encoded POST is untouched. A form-encoded PUT or PATCH becomes the `parse_str` result, or is refused with the form parse message when that is empty. JSON becomes the `json_decode` result, or is refused with the JSON parse message when decoding fails. Any other or missing content type is refused with the content-type message. |
| ApiController.FieldsToCheck | classes/Api/Controller.php:485-489 | The rules of every known field apply, except for PATCH (compared after `strtoupper`), where only the known fields present in the input apply, by `array_intersect_key`. |
| ApiController.RuleOf | classes/Api/Controller.php:506-515 | A rule entry with a string key is a rule named by the key with the value as its parameters. An entry with an integer key is a bare rule named by the value. |
| ApiController.FieldRules | classes/Api/Controller.php:494-515 | A field's rules value is cast to an array and gives one rule per entry, in entry order. |
| ApiController.RulesFor | classes/Api/Controller.php:492-517 | The rules registered are those of each field to check, field by field, in field order. |
| ApiController.ValidatorFor | classes/Api/Controller.php:479-518 | `init_validations` leaves a validator over the input, with the primary-key field labelled by its own name and the rules of the fields to check. |
| ApiController.RuleClassification | classes/Api/Controller.php:494-515 | Each entry of a field's rules gives one rule, and the rule keeps the field. A string key gives a rule with parameters; an integer key gives a bare rule name. A lone name is one bare rule, and null gives none. |
| ApiController.RulesOnlyForCheckedFields | classes/Api/Controller.php:492-517 | Every registered rule names one of the fields checked. |
| ApiController.RulesCoverEveryRuledField | classes/Api/Controller.php:492-517 | Every checked field with at least one rule entry gets a rule. |
| ApiController.AllowListTrimming | classes/Api/Controller.php:233 | Validated input holds only keys that are both known fields and in the request. Their values come from the request. |
| ApiController.PatchRulesOnlyForSuppliedFields | classes/Api/Controller.php:486-489 | PATCH registers rules only for known fields that the request supplied, and registers one for every supplied known field with at least one rule entry. |
| ApiController.PostRulesCoverEveryField | classes/Api/Controller.php:485-517 | POST registers the rules of every known field, supplied or not, and of no other field. |
| ApiController.DeleteWithoutIdentifierCallsNullValidator | classes/Api/Controller.php:306-315 | As written, a DELETE without an identifier calls `error()` on a validator that was never created. |
| ApiController.DeleteValidationAsWritten | classes/Api/Controller.php:306-319 | `delete_validate` as written: it accepts a truthy identifier. Otherwise it records `DELETE.missing_identifier` on the primary key of the current validator, and with no validator the call is made on null. |
| ApiController.DeleteValidation | classes/Api/Controller.php:306-319 | The same decision, with a validator created first when there is none, so that the error is always recorded. |
| ApiController.DeleteValidationRefusesWithoutIdentifier | classes/Api/Controller.php:306-319 | DELETE validation accepts exactly when the identifier is given. Otherwise it records `DELETE.missing_identifier` on the primary key. It agrees with the code as written wherever that code does not fail. |
| ApiController.PostDecisionStripsIdentifier | classes/Api/Controller.php:269-284 | POST answers 400 with no insert exactly when the input holds nothing besides the primary key. Otherwise it binds every other validated field, one per placeholder, and never binds the primary key. |
| ApiController.PostDecision | classes/Api/Controller.php:269-284 | `fulfill_post_request` unsets the primary key from the validated input. It answers 400 "There was no POST data" when nothing is left, and otherwise issues the INSERT of what is left. |
| ApiController.PatchOfIdentifierOnlyThrows | classes/Api/Controller.php:343-359 | As written, a PATCH of an existing row whose input is only the primary key lets `InvalidArgumentException` escape. |
| ApiController.PatchDecisionAsWritten | classes/Api/Controller.php:343-365 | `fulfill_patch_request` as written. Empty validated input gives 400 "There was no PATCH data". No selected row gives 404 "Resource: 'c', with identifier: 'id' was not found". Otherwise the primary key is unset: an empty remainder makes `build_update` throw, which escapes, and any other remainder is updated. |
| ApiController.PatchDecision | classes/Api/Controller.php:343-375 | The same decision, with the 400 "There was no PATCH data" answer also given when nothing is left after the unset. |
| ApiController.PatchDecisionOutcomes | classes/Api/Controller.php:343-375 | PATCH answers 400 with nothing to update and 404 when no row is selected. Otherwise it runs the UPDATE: SET placeholders in order, then the WHERE placeholder bound to the identifier. Nothing escapes, and the decision differs from the code as written only where that code throws. |
| ApiController.DeleteIsNoContentUnlessDbFails | classes/Api/Controller.php:380-408 | DELETE answers 204 whether or not the row existed. It never answers 404 and has no body. Only a failing statement answers 500. The statement binds just the identifier. |
| ApiController.DeleteDecision | classes/Api/Controller.php:380-408 | `fulfill_delete_request` issues the DELETE only when a row is selected. When none is, it answers 204 at once. |
| ApiController.Controller.constructor | classes/Api/Controller.php:60-86 | The content type is JSON. A known method sets the action; an unknown one sets 400, a message body and the error action. The payload parse then sets the post data, or refuses with 400 and overrides the body. |
| ApiController.Controller.RouteToError | classes/Api/Controller.php:528-537 | It sets the status, a body holding only the message, and the error action, and nothing else. |
| ApiController.Controller.ParsePayload | classes/Api/Controller.php:545-603 | It returns true exactly when the payload was parsed. The request and response change as `PayloadDecision` decides. |
| ApiController.Controller.ErrorResponse | classes/Api/Controller.php:426-438 | The body is `{"__error": array_merge(code, message, additional)}` and the status is the code. |
| ApiController.Controller.FulfillGetRequest | classes/Api/Controller.php:111-125 | It sets the body and status that `GetDecision` prescribes. |
| ApiController.Controller.InitValidations | classes/Api/Controller.php:479-518 | The nested loops leave a validator over the input. The primary key is labelled, and the rules of the fields to check are registered in order. |
| ApiController.Controller.PostValidate | classes/Api/Controller.php:204-218 | It validates the allow-listed input with every field's rules. The validated input changes only when the check passes, and then keeps its keys distinct. |
| ApiController.Controller.PatchValidate | classes/Api/Controller.php:227-248 | It validates only the supplied fields. Without an identifier it returns false, records `PATCH.missing_identifier` and leaves the validated input unchanged. A passing check leaves validated input with distinct keys. |
| ApiController.Controller.DeleteValidate | classes/Api/Controller.php:306-319 | It returns true exactly when the identifier is given. Otherwise it records the error on a validator it creates if needed. |
| ApiController.Controller.FulfillPostRequest | classes/Api/Controller.php:269-304 | It issues the statement `PostDecision` prescribes and sets that status and body. A created row answers 201 and echoes its identifier and link. |
| ApiController.Controller.FulfillPatchRequest | classes/Api/Controller.php:343-375 | It issues the statement `PatchDecision` prescribes and sets that status and body: 204, or 500 on a database error. |
| ApiController.Controller.FulfillDeleteRequest | classes/Api/Controller.php:380-408 | It issues the statement `DeleteDecision` prescribes and sets that status. The body is unchanged. |
| LegacyApiController.KnownMethodsLowered | classes/api/controller.php:32-40 | The seven known methods, HEAD included, are upper-case words, and their lower-case forms are the action names. |
| LegacyApiController.DispatchedActionIsKnown | classes/api/controller.php:48-62 | A method is dispatched exactly when its lower-case form is one of the seven action names, head included. |
| LegacyApiController.HeadKnownOnlyToLegacy | classes/api/controller.php:32-40 | HEAD reaches the head action here; the newer controller refuses it as unknown. |
| LegacyApiController.ArrGet | classes/api/controller.php:324 | `Arr::get($rules, index)` reads the entry at that integer index of an array of rules. A missing entry, or rules that are not an array, read as null. |
| LegacyApiController.RuleFor | classes/api/controller.php:322-325 | The one rule of a field is named by index 0 of its rules, with index 1 as its parameters. |
| LegacyApiController.RulesFor | classes/api/controller.php:317-327 | One rule is registered per field whose rules are truthy, in field order. Fields with falsy rules are skipped. |
| LegacyApiController.ValidatorFor | classes/api/controller.php:317-327 | `init_validations` leaves a validator over the input, with no label and the rules of `RulesFor` over every known field. |
| LegacyApiController.OneRulePerField | classes/api/controller.php:317-327 | Each field with truthy rules gets exactly one rule. A field with empty rules gets none. |
| LegacyApiController.RulesComeFromRuledFields | classes/api/controller.php:320-325 | Every rule is the name at index 0 and the parameters at index 1 of the rules of a field whose rules are truthy. |
| LegacyApiController.PostDecisionKeepsIdentifier | classes/api/controller.php:202-216 | POST answers 400 with no insert exactly when there is no validated input. Otherwise it binds every validated field. A supplied primary key is bound here, though the newer controller drops it. |
| LegacyApiController.PostDecision | classes/api/controller.php:202-216 | `fulfill_post_request` answers 400 "There was no POST data" when the validated input is empty. Otherwise it issues the INSERT of the whole validated input, the primary key included. |
| LegacyApiController.Controller.constructor | classes/api/controller.php:42-64 | The content type is JSON. A known method sets the action; an unknown one sets 400, a message body and the error action. The body is never parsed. |
| LegacyApiController.Controller.ErrorResponse | classes/api/controller.php:254-266 | The body is `{"__error": array_merge(code, message, additional)}` and the status is the code. |
| LegacyApiController.Controller.FulfillGetRequest | classes/api/controller.php:88-107 | It sets the body and status that `GetDecision` prescribes: 404 exactly when a truthy identifier names no row. |
| LegacyApiController.Controller.InitValidations | classes/api/controller.php:317-327 | The loop leaves a validator over the input, with one rule per field whose rules are truthy, in field order. |
| LegacyApiController.Controller.PostValidate | classes/api/controller.php:171-181 | It validates the allow-listed input. The validated input changes only when the check passes, and then keeps its keys distinct. |
| LegacyApiController.Controller.FulfillPostRequest | classes/api/controller.php:202-236 | It issues the statement `PostDecision` prescribes and sets that status and body. A created row answers 201 and echoes its identifier and link. |

## Left out

- Query execution (`DB::select`, `DB::query`, `execute`) is not modelled. The persisted rows are a table parameter and the outcome of a write is a `DbAnswer` parameter. The model records the statements handed over; it does not apply them to the table.
- `json_encode` and `echo`: bodies are kept as PHP values. Echoed values are appended to `Response.echoed`.
- `Util_Http::$code_labels` is not part of this model, so the status line is kept as its numeric code.
- The values of `Util_Http::CONTENT_TYPE_JSON` and `CONTENT_TYPE_FORM_ENCODE` are taken to be `application/json` and `application/x-www-form-urlencoded`.
- `$_SERVER['CONTENT_TYPE']` is a parameter of the constructor.
- The created-resource link (protocol, host, base URL and URI) is a parameter `linkFor`.
- `parse_str` and `json_decode` are parameters. The JSON decoder yields a string-keyed array or an error. Scalar JSON documents, and PHP's conversion of numeric-string keys to integers, are not modelled.
- Kohana `Validation` internals are not modelled: what each rule means, `check()` (a parameter) and `errors('api')`. `validation_error_response` is therefore left out.
- The default `action_*` methods are not modelled; each only answers 405 with a fixed message. `action_error` is empty, and the parent constructor belongs to the framework.
- PHP's loose `switch`, `in_array` and `==` comparisons are modelled as string equality. The values compared are not numeric strings.
- `get_persisted_resource` returns the table's rows in table order; database ordering is not modelled.
- ApiController.Controller.DeleteValidate: models the corrected behaviour. The code as written is `ApiController.DeleteValidationAsWritten` (see Findings).
- ApiController.Controller.FulfillPatchRequest: models the corrected behaviour. The code as written is `ApiController.PatchDecisionAsWritten` (see Findings).
- LegacyApiController.ArrGet: a truthy rules value that is not an array reads as null at both indexes. PHP would take single characters of a string.

## Findings

| source | as written | input that shows it | evidently intended | confidence | as-written member | corrected member |
|---|---|---|---|---|---|---|
| classes/Api/Controller.php:310-315 | With no identifier, `delete_validate` calls `$this->validator->error(...)`. Only `init_validations` sets the validator, and a DELETE does not run it, so the call is made on null. | A DELETE whose URI has no resource identifier, or the identifier "0". | Create the validator, record `DELETE.missing_identifier` on the primary key, and return false. | not executed; medium | ApiController.DeleteWithoutIdentifierCallsNullValidator | ApiController.DeleteValidationRefusesWithoutIdentifier |
| classes/Api/Controller.php:346-359 | `fulfill_patch_request` checks the data for emptiness before it unsets the primary key. Input holding only the primary key then reaches `build_update` empty, and its `InvalidArgumentException` is not caught. | A PATCH of an existing row 7 whose body is `{"id": "7"}`, where `id` is the primary key and one of the known fields. | Answer 400 "There was no PATCH data", as POST does after its unset. | not executed; medium | ApiController.PatchOfIdentifierOnlyThrows | ApiController.PatchDecisionOutcomes |
