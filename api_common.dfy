/**
 * What the two versions of the base controller share: the resource
 * descriptor of a concrete controller, the persisted table and the answers
 * of the persistence layer (both abstract), truthiness of the URI
 * identifier, the row lookup of GET, the JSON error bodies, and how the
 * parameters bound to a statement line up with its placeholders.
 */
module ApiCommon {
  import opened PhpArray
  import opened PhpString
  import Sql
  import Arr

  /**
   * The static configuration of a concrete controller: `$table_name`,
   * `$fields` (field name => validation rules; its keys are the allow-list)
   * and `$primary_key_field`.
   */
  datatype Resource = Resource(tableName: string, fields: Assoc<string, Value>, primaryKeyField: string)

  /** The persisted rows of the resource's table, by primary-key value. */
  type Table = Assoc<string, Value>

  /**
   * The persistence layer's answer to a write statement: it ran (an INSERT
   * yields the generated identifier), or it raised `Database_Exception`.
   */
  datatype DbAnswer = Executed(insertId: int) | DatabaseException

  datatype StatementKind = Insert | Update | Delete

  /** A write statement handed to the persistence layer, with its bound parameters. */
  datatype Statement = Statement(kind: StatementKind, sql: string, parameters: Assoc<string, Value>)

  /** The URI identifier as a PHP value: a string, or null when there is none. */
  function IdValue(id: Option<string>): Value
  {
    if id.None? then Null else Str(id.value)
  }

  /** The identifier as interpolated into a message. */
  function IdText(id: Option<string>): string
  {
    if id.None? then "" else id.value
  }

  /** `if ($identifier)`: the identifier counts as given only when it is truthy. */
  predicate Present(id: Option<string>)
  {
    Truthy(IdValue(id))
  }

  /** An identifier of "" or "0" counts as absent, like a missing one. */
  lemma PresentIff(id: Option<string>)
    ensures Present(id) <==> id.Some? && id.value != "" && id.value != "0"
  {
  }

  /** The rows whose primary key equals id, in table order. */
  function RowsWithId(table: Table, id: string): seq<Value>
  {
    if table == [] then []
    else (if table[0].0 == id then [table[0].1] else []) + RowsWithId(table[1..], id)
  }

  /**
   * `DB::select()->from($table)`, with `->where($pk, '=', $identifier)` only
   * when the identifier is truthy.
   */
  function Select(table: Table, id: Option<string>): seq<Value>
  {
    if Present(id) then RowsWithId(table, id.value) else Values(table)
  }

  /** In a table with distinct primary keys, a lookup by key finds the one row or none. */
  lemma {:induction false} RowsWithIdLookup(table: Table, id: string)
    requires DistinctKeys(table)
    ensures id in Keys(table) ==> RowsWithId(table, id) == [Get(table, id).value]
    ensures id !in Keys(table) ==> RowsWithId(table, id) == []
  {
    if table != [] {
      DistinctKeysCons(table);
      RowsWithIdLookup(table[1..], id);
      assert Keys(table) == [table[0].0] + Keys(table[1..]);
    }
  }

  /**
   * The GET decision: the result is empty with an identifier given exactly
   * when no row has that identifier; without a (truthy) identifier every row
   * is returned, and with one the single matching row.
   */
  lemma SelectEmptyIff(table: Table, id: Option<string>)
    requires DistinctKeys(table)
    ensures (Select(table, id) == [] && Present(id)) <==> (Present(id) && id.value !in Keys(table))
    ensures !Present(id) ==> Select(table, id) == Values(table)
    ensures Present(id) && id.value in Keys(table) ==> Select(table, id) == [Get(table, id.value).value]
  {
    if Present(id) {
      RowsWithIdLookup(table, id.value);
    }
  }

  /** "HTTP Method <m> not known.Known method: <list>". */
  function UnknownMethodMessage(requestMethod: string, known: seq<string>): string
  {
    "HTTP Method " + requestMethod + " not known." + "Known method: " + Implode(", ", known)
  }

  function NotFoundMessage(id: Option<string>): string
  {
    "Resource with identifier [" + IdText(id) + "] Not Found"
  }

  /** The body `{"__error": {"__message": message}}` of an early rejection. */
  function MessageBody(message: string): Value
  {
    Arr([(StrKey("__error"), Arr([(StrKey("__message"), Str(message))]))])
  }

  /** `array_merge(array('__code' => $code, '__message' => $message), $additional)`. */
  function ErrorValues(code: int, message: string, additional: Assoc<Key, Value>): Assoc<Key, Value>
  {
    ArrayMerge([(StrKey("__code"), Int(code)), (StrKey("__message"), Str(message))], additional)
  }

  /** The body `{"__error": {"__code": .., "__message": .., ...additional}}` of `error_response`. */
  function ErrorBody(code: int, message: string, additional: Assoc<Key, Value>): Value
  {
    Arr([(StrKey("__error"), Arr(ErrorValues(code, message, additional)))])
  }

  /** The value echoed after a successful create: the new identifier and its link. */
  function CreatedValue(primaryKeyField: string, identifier: int, href: string): Value
  {
    Arr([(StrKey(primaryKeyField), Int(identifier)), (StrKey("link"), Arr([(StrKey("href"), Str(href))]))])
  }

  lemma KeysAppend<K, V>(a: Assoc<K, V>, e: (K, V))
    ensures Keys(a + [e]) == Keys(a) + [e.0]
  {
  }

  /** `array_merge` keeps the keys already present at their positions. */
  lemma {:induction false} MergeKeepsOrder<V>(acc: Assoc<Key, V>, b: Assoc<Key, V>)
    ensures |MergeInto(acc, b)| >= |acc|
    ensures forall i :: 0 <= i < |acc| ==> MergeInto(acc, b)[i].0 == acc[i].0
    decreases |b|
  {
    if b != [] {
      var next := if b[0].0.IntKey? then acc + [(IntKey(CountIntKeys(acc)), b[0].1)]
                  else Assign(acc, b[0].0, b[0].1);
      if !b[0].0.IntKey? {
        AssignKeys(acc, b[0].0, b[0].1);
      }
      assert |next| >= |acc| && forall i :: 0 <= i < |acc| ==> next[i].0 == acc[i].0 by {
        if !b[0].0.IntKey? && b[0].0 in Keys(acc) {
          assert Keys(next) == Keys(acc);
        }
      }
      MergeKeepsOrder(next, b[1..]);
    }
  }

  /** A string key reads, after `array_merge`, as in the second array if it has it, else as in the first. */
  lemma {:induction false} MergeGet<V>(acc: Assoc<Key, V>, b: Assoc<Key, V>, k: Key)
    requires k.StrKey? && DistinctKeys(b)
    ensures Get(MergeInto(acc, b), k) == if k in Keys(b) then Get(b, k) else Get(acc, k)
    decreases |b|
  {
    if b != [] {
      DistinctKeysCons(b);
      assert Keys(b) == [b[0].0] + Keys(b[1..]);
      var next := if b[0].0.IntKey? then acc + [(IntKey(CountIntKeys(acc)), b[0].1)]
                  else Assign(acc, b[0].0, b[0].1);
      if b[0].0.IntKey? {
        GetAppend(acc, IntKey(CountIntKeys(acc)), b[0].1, k);
      } else {
        AssignGet(acc, b[0].0, b[0].1, k);
      }
      MergeGet(next, b[1..], k);
    }
  }

  /**
   * `error_response` builds `__code` then `__message`, in that order, and
   * merges the additional values after them: every string key of the
   * additional array reads as given there, and `__code` / `__message` keep
   * the code and message unless the additional array overrides them.
   */
  lemma ErrorValuesShape(code: int, message: string, additional: Assoc<Key, Value>)
    requires DistinctKeys(additional)
    ensures var ev := ErrorValues(code, message, additional);
      && |ev| >= 2 && ev[0].0 == StrKey("__code") && ev[1].0 == StrKey("__message")
      && Get(ev, StrKey("__code")) ==
           (if StrKey("__code") in Keys(additional) then Get(additional, StrKey("__code")) else Some(Int(code)))
      && Get(ev, StrKey("__message")) ==
           (if StrKey("__message") in Keys(additional) then Get(additional, StrKey("__message")) else Some(Str(message)))
      && forall s :: StrKey(s) in Keys(additional) ==> Get(ev, StrKey(s)) == Get(additional, StrKey(s))
  {
    var base: Assoc<Key, Value> := [(StrKey("__code"), Int(code)), (StrKey("__message"), Str(message))];
    var first := MergeInto([], base);
    assert Assign([base[0]], base[1].0, base[1].1) == base;
    assert MergeInto([], base) == MergeInto([base[0]], base[1..]);
    assert first == base;
    MergeKeepsOrder(first, additional);
    MergeGet(first, additional, StrKey("__code"));
    MergeGet(first, additional, StrKey("__message"));
    forall s | StrKey(s) in Keys(additional)
      ensures Get(ErrorValues(code, message, additional), StrKey(s)) == Get(additional, StrKey(s))
    {
      MergeGet(first, additional, StrKey(s));
    }
  }

  /**
   * The parameters bound to an INSERT (the data with every key prefixed by
   * ":") are exactly the statement's placeholders, in the same order.
   */
  lemma InsertBindingsMatchPlaceholders(data: Assoc<string, Value>)
    ensures Keys(Arr.Prefixed(":", data)) == Sql.Placeholders(Keys(data))
  {
    Arr.PrefixedKeys(":", data);
    Sql.InsertColumnsMatchPlaceholders(Keys(data));
  }

  /**
   * For an UPDATE, the data without the identifier column and with the
   * identifier bound back at the end yields one parameter per SET
   * placeholder, in order, and then the WHERE placeholder.
   */
  lemma UpdateBindingsMatchPlaceholders(data: Assoc<string, Value>, identifierField: string, id: Value)
    requires identifierField !in Keys(data)
    ensures Keys(Arr.Prefixed(":", Assign(data, identifierField, id)))
      == Sql.Placeholders(Keys(data)) + [Sql.Placeholder(identifierField)]
  {
    AssignKeys(data, identifierField, id);
    var bound := data + [(identifierField, id)];
    InsertBindingsMatchPlaceholders(bound);
    KeysAppend(data, (identifierField, id));
    PlaceholdersAppend(Keys(data), identifierField);
  }

  lemma PlaceholdersAppend(keys: seq<string>, k: string)
    ensures Sql.Placeholders(keys + [k]) == Sql.Placeholders(keys) + [Sql.Placeholder(k)]
  {
    Sql.InsertColumnsMatchPlaceholders(keys + [k]);
    Sql.InsertColumnsMatchPlaceholders(keys);
    var l := Sql.Placeholders(keys + [k]);
    var r := Sql.Placeholders(keys) + [Sql.Placeholder(k)];
    assert |l| == |r|;
    forall i | 0 <= i < |l| ensures l[i] == r[i] {
      if i < |keys| {
        assert (keys + [k])[i] == keys[i];
      }
    }
  }

  /** `Util_Http::CONTENT_TYPE_JSON`. */
  const JsonContentType: string := "application/json"

  /** `Util_Http::CONTENT_TYPE_FORM_ENCODE`. */
  const FormEncodeContentType: string := "application/x-www-form-urlencoded"

  /**
   * Where the constructor sends a request: to the action named by the
   * lower-cased method, or to the error action with a message.
   */
  datatype Route = Handle(action: string) | Reject(message: string)

  /**
   * `in_array(strtoupper($method), $known)`: a known method (in any letter
   * case) is handled by the action of its lower-case name.
   */
  function Dispatch(requestMethod: string, known: seq<string>): Route
  {
    if Upper(requestMethod) in known then Handle(Lower(requestMethod))
    else Reject(UnknownMethodMessage(requestMethod, known))
  }

  /**
   * With a list of upper-case method names, dispatch ignores letter case:
   * a method is handled exactly when its lower-case form is that of a known
   * method, and the action is then that lower-case form.
   */
  lemma DispatchIgnoresCase(requestMethod: string, known: seq<string>)
    requires forall w :: w in known ==> IsUpperWord(w)
    ensures Dispatch(requestMethod, known).Handle?
      <==> exists w :: w in known && Lower(requestMethod) == Lower(w)
    ensures Dispatch(requestMethod, known).Handle? ==>
      Dispatch(requestMethod, known).action in LowerAll(known)
  {
    forall w | w in known
      ensures Upper(requestMethod) == w <==> Lower(requestMethod) == Lower(w)
    {
      UpperMatchIffLowerMatch(requestMethod, w);
    }
    if Upper(requestMethod) in known {
      var i :| 0 <= i < |known| && known[i] == Upper(requestMethod);
      assert LowerAll(known)[i] == Lower(requestMethod);
    }
  }

  /** The lower-case forms of a list of names. */
  function LowerAll(names: seq<string>): (r: seq<string>)
    ensures |r| == |names|
    ensures forall i :: 0 <= i < |names| ==> r[i] == Lower(names[i])
  {
    seq(|names|, i requires 0 <= i < |names| => Lower(names[i]))
  }

  /** The SQL text, the kind and the bound parameters of an INSERT of data. */
  function InsertFor(tableName: string, data: Assoc<string, Value>): Statement
  {
    Statement(Insert, Sql.InsertStatement(tableName, Keys(data)), Arr.Prefixed(":", data))
  }

  /**
   * An UPDATE of data on the row whose identifier column holds id: the
   * identifier is bound back after the data, for the WHERE placeholder.
   */
  function UpdateFor(tableName: string, identifierField: string, data: Assoc<string, Value>, id: Option<string>): Statement
  {
    Statement(Update, Sql.UpdateStatement(tableName, identifierField, Keys(data)),
      Arr.Prefixed(":", Assign(data, identifierField, IdValue(id))))
  }

  /** A DELETE of the row whose identifier column holds id. */
  function DeleteFor(tableName: string, identifierField: string, id: Option<string>): Statement
  {
    Statement(Delete, Sql.BuildDelete(tableName, identifierField),
      Arr.Prefixed(":", [(identifierField, IdValue(id))]))
  }

  /**
   * What a request handler decides to do: an `error_response`, a body of
   * rows, a statement for the persistence layer, a bare 204, or an
   * exception that escapes the handler.
   */
  datatype Decision =
    | ErrorReply(code: int, message: string)
    | Rows(rows: seq<Value>)
    | Run(statement: Statement)
    | NoContent
    | Uncaught(exception: Sql.InvalidArgument)

  /**
   * The status after a statement ran: 201 for a created row, 204 for an
   * update or a delete, and 500 when `Database_Exception` was raised.
   */
  function RunStatus(kind: StatementKind, answer: DbAnswer): int
  {
    if answer.DatabaseException? then 500 else if kind == Insert then 201 else 204
  }

  /** The status a decision sets, if any (a body of rows leaves the status alone). */
  function StatusOf(d: Decision, answer: DbAnswer): Option<int>
  {
    match d
    case ErrorReply(code, _) => Some(code)
    case Rows(_) => None
    case Run(statement) => Some(RunStatus(statement.kind, answer))
    case NoContent => Some(204)
    case Uncaught(_) => None
  }

  /** The body a decision sets, if any. */
  function BodyOf(d: Decision): Option<Value>
  {
    match d
    case ErrorReply(code, message) => Some(ErrorBody(code, message, []))
    case Rows(rows) => Some(ListValue(rows))
    case _ => None
  }

  /** The statements a decision hands to the persistence layer. */
  function IssuedBy(d: Decision): seq<Statement>
  {
    if d.Run? then [d.statement] else []
  }

  /** A new value if there is one, else the old one. */
  function Override<T>(old_: Option<T>, new_: Option<T>): Option<T>
  {
    if new_.Some? then new_ else old_
  }

  /**
   * `fulfill_get_request`: 404 when no row was found although an identifier
   * was given, otherwise the rows found.
   */
  function GetDecision(table: Table, id: Option<string>): Decision
  {
    var results := Select(table, id);
    if results == [] && Present(id) then ErrorReply(404, NotFoundMessage(id))
    else Rows(results)
  }

  /**
   * GET answers 404 exactly when a (truthy) identifier names no row; without
   * one it lists every row, even of an empty table, and with one that names
   * a row it lists just that row.
   */
  lemma GetNotFoundIff(table: Table, id: Option<string>)
    requires DistinctKeys(table)
    ensures GetDecision(table, id).ErrorReply? <==> Present(id) && id.value !in Keys(table)
    ensures GetDecision(table, id).ErrorReply? ==> GetDecision(table, id) == ErrorReply(404, NotFoundMessage(id))
    ensures !Present(id) ==> GetDecision(table, id) == Rows(Values(table))
    ensures Present(id) && id.value in Keys(table) ==>
      GetDecision(table, id) == Rows([Get(table, id.value).value])
  {
    SelectEmptyIff(table, id);
  }
}
