/**
 * `Util_Sql`: the parameterised INSERT / UPDATE / DELETE text built from a
 * table name, an identifier column and the keys of a field map. Identifiers
 * are back-tick quoted; every value is a `:name` placeholder, so the text
 * depends on the keys of the field map and never on its values.
 */
module Sql {
  import opened PhpArray
  import opened PhpString

  /** PHP's `InvalidArgumentException`, with its message. */
  datatype InvalidArgument = InvalidArgumentException(message: string)

  datatype Result<T> = Ok(value: T) | Err(error: InvalidArgument)

  const EmptyFieldsMessage: string := "Param: $fields cannot be empty"

  function QuoteIdentifier(name: string): string
  {
    "`" + name + "`"
  }

  function Placeholder(name: string): string
  {
    ":" + name
  }

  /** One `SET` or `WHERE` term: "`name` = :name". */
  function Assignment(name: string): string
  {
    QuoteIdentifier(name) + " = " + Placeholder(name)
  }

  function WhereClause(identifierField: string): string
  {
    "WHERE " + Assignment(identifierField)
  }

  /** Every piece of xs between pre and post. */
  function Wrap(pre: string, post: string, xs: seq<string>): (r: seq<string>)
    ensures |r| == |xs|
    ensures forall i :: 0 <= i < |xs| ==> r[i] == pre + xs[i] + post
  {
    if xs == [] then [] else [pre + xs[0] + post] + Wrap(pre, post, xs[1..])
  }

  /** The quoted column names, one per key. */
  function Columns(keys: seq<string>): seq<string>
  {
    Wrap("`", "`", keys)
  }

  /** The placeholders, one per key. */
  function Placeholders(keys: seq<string>): seq<string>
  {
    Wrap(":", "", keys)
  }

  /** The `SET` terms, one per key. */
  function Assignments(keys: seq<string>): seq<string>
  {
    seq(|keys|, i requires 0 <= i < |keys| => Assignment(keys[i]))
  }

  /** "SET" followed by the terms of the keys, comma separated. */
  function SetClause(keys: seq<string>): string
  {
    "SET " + Implode(", ", Assignments(keys))
  }

  /** The INSERT statement for the given column keys. */
  function InsertStatement(tableName: string, keys: seq<string>): string
  {
    "INSERT INTO `" + tableName + "` (" + Implode(", ", Columns(keys))
      + ") VALUES(" + Implode(", ", Placeholders(keys)) + ")"
  }

  /** The UPDATE statement for the given column keys and identifier column. */
  function UpdateStatement(tableName: string, identifierField: string, keys: seq<string>): string
  {
    "UPDATE `" + tableName + "` " + SetClause(keys) + " " + WhereClause(identifierField)
  }

  /**
   * Joining with post + sep + pre and wrapping the whole in pre ... post
   * is the same as wrapping each piece and joining with sep; this is how
   * "`" . implode("`, `", $keys) . "`" quotes every key.
   */
  lemma {:induction false} ImplodeWrapped(pre: string, post: string, sep: string, xs: seq<string>)
    requires xs != []
    ensures pre + Implode(post + sep + pre, xs) + post == Implode(sep, Wrap(pre, post, xs))
  {
    var w := Wrap(pre, post, xs);
    if |xs| == 1 {
      assert w == [pre + xs[0] + post];
    } else {
      var glue := post + sep + pre;
      var rest := Implode(glue, xs[1..]);
      ImplodeWrapped(pre, post, sep, xs[1..]);
      assert w[1..] == Wrap(pre, post, xs[1..]);
      calc {
        pre + Implode(glue, xs) + post;
        pre + (xs[0] + glue + rest) + post;
        (pre + xs[0] + post) + sep + (pre + rest + post);
        w[0] + sep + Implode(sep, w[1..]);
        Implode(sep, w);
      }
    }
  }

  /**
   * `build_insert`: an empty field map is refused with
   * `InvalidArgumentException`; otherwise the statement lists every key as a
   * quoted column and, in the same order, as a placeholder.
   */
  function BuildInsert(tableName: string, fields: Assoc<string, Value>): (r: Result<string>)
    ensures fields == [] ==> r == Err(InvalidArgumentException(EmptyFieldsMessage))
    ensures fields != [] ==> r == Ok(InsertStatement(tableName, Keys(fields)))
  {
    if fields == [] then
      Err(InvalidArgumentException(EmptyFieldsMessage))
    else
      var keys := Keys(fields);
      var fieldsList := "`" + Implode("`, `", keys) + "`";
      var fieldPlaceholderList := ":" + Implode(", :", keys);
      assert "`, `" == "`" + ", " + "`";
      assert ", :" == "" + ", " + ":";
      ImplodeWrapped("`", "`", ", ", keys);
      ImplodeWrapped(":", "", ", ", keys);
      assert fieldPlaceholderList == ":" + Implode(", :", keys) + "";
      Ok("INSERT INTO `" + tableName + "` (" + fieldsList + ") VALUES(" + fieldPlaceholderList + ")")
  }

  /**
   * `build_update`: an empty field map is refused with
   * `InvalidArgumentException`; otherwise one "`k` = :k" term per key, in key
   * order, after SET, and the WHERE term for the identifier column.
   */
  method BuildUpdate(tableName: string, identifierField: string, fields: Assoc<string, Value>)
    returns (r: Result<string>)
    ensures fields == [] ==> r == Err(InvalidArgumentException(EmptyFieldsMessage))
    ensures fields != [] ==> r == Ok(UpdateStatement(tableName, identifierField, Keys(fields)))
  {
    if fields == [] {
      return Err(InvalidArgumentException(EmptyFieldsMessage));
    }
    var fieldNames := Keys(fields);
    var fieldsList: seq<string> := [];
    for i := 0 to |fieldNames|
      invariant |fieldsList| == i
      invariant forall j :: 0 <= j < i ==> fieldsList[j] == Assignment(fieldNames[j])
    {
      var fieldName := fieldNames[i];
      assert "`" + fieldName + "` = :" + fieldName == Assignment(fieldName);
      fieldsList := fieldsList + ["`" + fieldName + "` = :" + fieldName];
    }
    assert fieldsList == Assignments(fieldNames);
    var fieldsSetStatements := "SET " + Implode(", ", fieldsList);
    var whereStatement := "WHERE `" + identifierField + "` = :" + identifierField;
    assert whereStatement == WhereClause(identifierField);
    r := Ok("UPDATE `" + tableName + "` " + fieldsSetStatements + " " + whereStatement);
  }

  /** `build_delete`: no precondition; the same WHERE term as an UPDATE. */
  function BuildDelete(tableName: string, identifierField: string): (r: string)
    ensures r == "DELETE FROM `" + tableName + "` " + WhereClause(identifierField)
  {
    var whereStatement := "WHERE `" + identifierField + "` = :" + identifierField;
    "DELETE FROM `" + tableName + "` " + whereStatement
  }

  /** Column i of an INSERT and placeholder i name the same key. */
  lemma InsertColumnsMatchPlaceholders(keys: seq<string>)
    ensures |Columns(keys)| == |Placeholders(keys)| == |keys|
    ensures forall i :: 0 <= i < |keys| ==>
      Columns(keys)[i] == QuoteIdentifier(keys[i]) && Placeholders(keys)[i] == Placeholder(keys[i])
  {
    forall i | 0 <= i < |keys|
      ensures Placeholders(keys)[i] == Placeholder(keys[i])
    {
      assert Placeholders(keys)[i] == ":" + keys[i] + "";
    }
  }

  /** Each SET term pairs a quoted column with that column's placeholder. */
  lemma AssignmentsPairColumnsWithPlaceholders(keys: seq<string>)
    ensures |Assignments(keys)| == |keys|
    ensures forall i :: 0 <= i < |keys| ==>
      Assignments(keys)[i] == Columns(keys)[i] + " = " + Placeholders(keys)[i]
  {
    InsertColumnsMatchPlaceholders(keys);
  }

  /**
   * The statement text depends only on the keys of the field map: two maps
   * with the same keys in the same order give the same INSERT, whatever
   * their values.
   */
  lemma InsertIgnoresValues(tableName: string, fields: Assoc<string, Value>, other: Assoc<string, Value>)
    requires Keys(fields) == Keys(other)
    ensures BuildInsert(tableName, fields) == BuildInsert(tableName, other)
  {
  }
}
