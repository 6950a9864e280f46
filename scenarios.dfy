/** Examples of `sqlForPartialUpdate`, computed on concrete inputs. The first
    is the one in the comment of helpers/sql.js. */
module Scenarios {
  import opened Sql

  /** The JavaScript values the examples bind. */
  datatype JsValue = JsString(s: string) | JsNumber(n: int) | JsBool(b: bool)

  lemma TranslatedColumns()
    ensures Columns(["firstName", "age"], map["firstName" := "first_name", "age" := "age"])
         == ["\"first_name\"=$1", "\"age\"=$2"]
  {
    var jsToSql := map["firstName" := "first_name", "age" := "age"];
    assert Decimal.NatToString(1) == "1" && Decimal.NatToString(2) == "2";
    assert ResolveColumn("firstName", jsToSql) == "first_name";
    assert ResolveColumn("age", jsToSql) == "age";
    assert Fragment("first_name", 1) == "\"first_name\"=$1";
    assert Fragment("age", 2) == "\"age\"=$2";
  }

  /** `{firstName: 'Aliya', age: 32}` with `{firstName: "first_name", age: "age"}`. */
  lemma TranslatedFields()
    ensures SqlForPartialUpdate([("firstName", JsString("Aliya")), ("age", JsNumber(32))],
                                map["firstName" := "first_name", "age" := "age"])
         == Success(PartialUpdate("\"first_name\"=$1, \"age\"=$2", [JsString("Aliya"), JsNumber(32)]))
  {
    var data := [("firstName", JsString("Aliya")), ("age", JsNumber(32))];
    assert Keys(data) == ["firstName", "age"];
    TranslatedColumns();
    JoinCons("\"first_name\"=$1", ["\"age\"=$2"], Separator);
    assert ["\"first_name\"=$1"] + ["\"age\"=$2"] == ["\"first_name\"=$1", "\"age\"=$2"];
    assert "\"first_name\"=$1" + (", " + "\"age\"=$2") == "\"first_name\"=$1, \"age\"=$2";
    assert Values(data) == [JsString("Aliya"), JsNumber(32)];
  }

  /** An empty object is rejected with "No data". */
  lemma NoFields()
    ensures SqlForPartialUpdate<JsValue>([], map["firstName" := "first_name"]) == Failure(BadRequest("No data"))
  {
  }

  /** A single field gives one fragment and no separator; `false` is bound as it is. */
  lemma SingleFalseField()
    ensures SqlForPartialUpdate([("isActive", JsBool(false))], map[])
         == Success(PartialUpdate("\"isActive\"=$1", [JsBool(false)]))
  {
    var data := [("isActive", JsBool(false))];
    assert Decimal.NatToString(1) == "1";
    assert Keys(data) == ["isActive"];
    assert ResolveColumn("isActive", map[]) == "isActive";
    assert Fragment("isActive", 1) == "\"isActive\"=$1";
    assert Columns(Keys(data), map[])[0] == "\"isActive\"=$1";
    assert Columns(Keys(data), map[]) == ["\"isActive\"=$1"];
    assert Values(data) == [JsBool(false)];
  }

  lemma JoinOfThree(x: string, y: string, z: string)
    ensures Join([x, y, z], Separator) == x + ", " + y + ", " + z
  {
    assert [x, y, z][1..] == [y, z];
    assert [y, z][1..] == [z];
    assert Join([y, z], Separator) == y + ", " + z;
    assert Join([x, y, z], Separator) == x + ", " + (y + ", " + z);
  }

  lemma PartlyTranslatedColumns()
    ensures Columns(["a", "b", "c"], map["b" := "b_col"]) == ["\"a\"=$1", "\"b_col\"=$2", "\"c\"=$3"]
  {
    var jsToSql := map["b" := "b_col"];
    assert Decimal.NatToString(1) == "1" && Decimal.NatToString(2) == "2" && Decimal.NatToString(3) == "3";
    assert ResolveColumn("a", jsToSql) == "a";
    assert ResolveColumn("b", jsToSql) == "b_col";
    assert ResolveColumn("c", jsToSql) == "c";
    assert Fragment("a", 1) == "\"a\"=$1";
    assert Fragment("b_col", 2) == "\"b_col\"=$2";
    assert Fragment("c", 3) == "\"c\"=$3";
  }

  /** Only the translated field changes name; numbering follows field order. */
  lemma PartlyTranslatedFields()
    ensures SqlForPartialUpdate([("a", JsNumber(1)), ("b", JsNumber(2)), ("c", JsNumber(3))], map["b" := "b_col"])
         == Success(PartialUpdate("\"a\"=$1, \"b_col\"=$2, \"c\"=$3", [JsNumber(1), JsNumber(2), JsNumber(3)]))
  {
    var data := [("a", JsNumber(1)), ("b", JsNumber(2)), ("c", JsNumber(3))];
    assert Keys(data) == ["a", "b", "c"];
    PartlyTranslatedColumns();
    JoinOfThree("\"a\"=$1", "\"b_col\"=$2", "\"c\"=$3");
    assert "\"a\"=$1" + ", " + "\"b_col\"=$2" + ", " + "\"c\"=$3" == "\"a\"=$1, \"b_col\"=$2, \"c\"=$3";
    assert Values(data) == [JsNumber(1), JsNumber(2), JsNumber(3)];
  }

  /** A translation to "" is skipped by `||`: the field name is used. */
  lemma EmptyTranslationFallsBack()
    ensures SqlForPartialUpdate([("age", JsNumber(32))], map["age" := ""])
         == Success(PartialUpdate("\"age\"=$1", [JsNumber(32)]))
  {
    var data := [("age", JsNumber(32))];
    assert Decimal.NatToString(1) == "1";
    assert Keys(data) == ["age"];
    assert ResolveColumn("age", map["age" := ""]) == "age";
    assert Fragment("age", 1) == "\"age\"=$1";
    assert Columns(Keys(data), map["age" := ""])[0] == "\"age\"=$1";
    assert Columns(Keys(data), map["age" := ""]) == ["\"age\"=$1"];
    assert Values(data) == [JsNumber(32)];
  }
}
