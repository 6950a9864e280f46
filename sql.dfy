/** The SET-clause builder of helpers/sql.js: `sqlForPartialUpdate` turns
    the changed fields of a record, in their iteration order, into the SET
    fragment of a parameterised UPDATE (`"col"=$1, "col"=$2, ...`) and the
    list of values to bind to those placeholders. */
module Sql {
  import opened Decimal

  /** The error `sqlForPartialUpdate` throws: a `BadRequestError` with its message. */
  datatype Error = BadRequest(message: string)

  datatype Result<T> = Success(value: T) | Failure(error: Error)

  /** The object `{setCols, values}` the function returns. */
  datatype PartialUpdate<V> = PartialUpdate(setCols: string, values: seq<V>)

  /** The message of the one error the builder raises. */
  const NoData: string := "No data"

  /** The separator `cols.join(", ")` puts between fragments. */
  const Separator: string := ", "

  /** The column a field name is written as: `jsToSql[colName] || colName`.
      JavaScript's `||` skips a falsy left operand, so the translation is used
      only when the key is present and its translation is not the empty
      string; otherwise the field name itself is the column. */
  function ResolveColumn(colName: string, jsToSql: map<string, string>): (col: string)
    ensures colName in jsToSql && jsToSql[colName] != "" ==> col == jsToSql[colName]
    ensures colName !in jsToSql || jsToSql[colName] == "" ==> col == colName
  {
    if colName in jsToSql && jsToSql[colName] != "" then jsToSql[colName] else colName
  }

  /** One item of the SET clause: the column in double quotes (no escaping),
      `=`, and the placeholder `$position`. */
  function Fragment(col: string, position: nat): (s: string)
    ensures |s| >= |col| + 5
    ensures s[0] == '"' && s[|col| + 1] == '"'
    ensures IsDigit(s[|s| - 1])
  {
    "\"" + col + "\"=$" + NatToString(position)
  }

  function TotalLength(parts: seq<string>): nat {
    if parts == [] then 0 else |parts[0]| + TotalLength(parts[1..])
  }

  /** `Array.prototype.join`: the parts with `sep` between neighbours. */
  function Join(parts: seq<string>, sep: string): (s: string)
    ensures parts == [] ==> s == ""
  {
    if parts == [] then ""
    else if |parts| == 1 then parts[0]
    else parts[0] + sep + Join(parts[1..], sep)
  }

  /** Joining a part in front of n >= 1 parts adds one separator. */
  lemma JoinCons(first: string, rest: seq<string>, sep: string)
    requires |rest| >= 1
    ensures Join([first] + rest, sep) == first + (sep + Join(rest, sep))
  {
    assert ([first] + rest)[1..] == rest;
  }

  /** Joining two non-empty runs of parts is joining each run and putting
      one separator between the two joins. */
  lemma {:induction false} JoinAppend(a: seq<string>, b: seq<string>, sep: string)
    requires |a| >= 1 && |b| >= 1
    ensures Join(a + b, sep) == Join(a, sep) + sep + Join(b, sep)
    decreases |a|
  {
    if |a| == 1 {
      assert a + b == [a[0]] + b;
      JoinCons(a[0], b, sep);
    } else {
      assert (a + b)[1..] == a[1..] + b;
      JoinAppend(a[1..], b, sep);
      calc {
        Join(a + b, sep);
        a[0] + sep + Join(a[1..] + b, sep);
        a[0] + sep + (Join(a[1..], sep) + sep + Join(b, sep));
        (a[0] + sep + Join(a[1..], sep)) + sep + Join(b, sep);
        Join(a, sep) + sep + Join(b, sep);
      }
    }
  }

  /** A join of n >= 1 parts holds exactly n - 1 separators. */
  lemma {:induction false} JoinLength(parts: seq<string>, sep: string)
    requires |parts| >= 1
    ensures |Join(parts, sep)| == TotalLength(parts) + (|parts| - 1) * |sep|
    decreases |parts|
  {
    if |parts| > 1 {
      JoinLength(parts[1..], sep);
    }
  }

  /** `Object.keys(dataToUpdate)`. */
  function Keys<V>(dataToUpdate: seq<(string, V)>): (keys: seq<string>)
    ensures |keys| == |dataToUpdate|
    ensures forall i :: 0 <= i < |keys| ==> keys[i] == dataToUpdate[i].0
  {
    seq(|dataToUpdate|, i requires 0 <= i < |dataToUpdate| => dataToUpdate[i].0)
  }

  /** `Object.values(dataToUpdate)`, in the same order as `Keys`. */
  function Values<V>(dataToUpdate: seq<(string, V)>): (values: seq<V>)
    ensures |values| == |dataToUpdate|
    ensures forall i :: 0 <= i < |values| ==> values[i] == dataToUpdate[i].1
  {
    seq(|dataToUpdate|, i requires 0 <= i < |dataToUpdate| => dataToUpdate[i].1)
  }

  /** `keys.map((colName, idx) => ...)`: the fragment of each key, numbered
      from 1 in key order. */
  function Columns(keys: seq<string>, jsToSql: map<string, string>): (cols: seq<string>)
    ensures |cols| == |keys|
  {
    seq(|keys|, idx requires 0 <= idx < |keys| => Fragment(ResolveColumn(keys[idx], jsToSql), idx + 1))
  }

  /** `sqlForPartialUpdate(dataToUpdate, jsToSql)`. The fields are an ordered
      list of (name, value) pairs, standing for a JavaScript object whose
      `Object.keys` and `Object.values` share one order. */
  function SqlForPartialUpdate<V>(dataToUpdate: seq<(string, V)>, jsToSql: map<string, string>)
    : (r: Result<PartialUpdate<V>>)
    ensures r.Failure? <==> |dataToUpdate| == 0
    ensures r.Failure? ==> r.error == BadRequest(NoData)
    ensures r.Success? ==> |r.value.values| == |dataToUpdate|
    ensures r.Success? ==> forall i :: 0 <= i < |dataToUpdate| ==> r.value.values[i] == dataToUpdate[i].1
  {
    var keys := Keys(dataToUpdate);
    if |keys| == 0 then Failure(BadRequest(NoData))
    else
      var cols := Columns(keys, jsToSql);
      Success(PartialUpdate(Join(cols, Separator), Values(dataToUpdate)))
  }

  /** A join of non-empty parts begins with the first part's first
      character and ends with the last part's last character: the separator
      never appears at either end. */
  lemma {:induction false} JoinEnds(parts: seq<string>, sep: string)
    requires |parts| >= 1
    requires forall i :: 0 <= i < |parts| ==> |parts[i]| >= 1
    ensures var s := Join(parts, sep);
      |s| >= 1 && s[0] == parts[0][0] && s[|s| - 1] == parts[|parts| - 1][|parts[|parts| - 1]| - 1]
    decreases |parts|
  {
    if |parts| > 1 {
      JoinEnds(parts[1..], sep);
    }
  }

  /** The SET clause starts with the opening quote of the first column and
      ends with the last digit of the last placeholder, so there is no
      leading or trailing ", ". */
  lemma SetClauseHasNoOuterSeparator<V>(dataToUpdate: seq<(string, V)>, jsToSql: map<string, string>)
    requires |dataToUpdate| >= 1
    ensures var r := SqlForPartialUpdate(dataToUpdate, jsToSql);
      r.Success? && |r.value.setCols| >= 1
      && r.value.setCols[0] == '"' && IsDigit(r.value.setCols[|r.value.setCols| - 1])
  {
    var cols := Columns(Keys(dataToUpdate), jsToSql);
    JoinEnds(cols, Separator);
    var last := cols[|cols| - 1];
    var numeral := NatToString(|cols|);
    assert last[|last| - |numeral|..] == numeral;
    assert last[|last| - 1] == numeral[|numeral| - 1];
  }

  /** The names of the fields being updated. */
  function KeySet<V>(dataToUpdate: seq<(string, V)>): set<string> {
    set i | 0 <= i < |dataToUpdate| :: dataToUpdate[i].0
  }

  /** Translations agree on a key when both resolve it to the same column. */
  predicate AgreeOn(m1: map<string, string>, m2: map<string, string>, keys: set<string>) {
    forall k :: k in keys ==> ResolveColumn(k, m1) == ResolveColumn(k, m2)
  }

  /** The output depends on the translation table only through how it
      resolves the keys being updated. */
  lemma ResultDependsOnResolvedColumns<V>(dataToUpdate: seq<(string, V)>, m1: map<string, string>, m2: map<string, string>)
    requires AgreeOn(m1, m2, KeySet(dataToUpdate))
    ensures SqlForPartialUpdate(dataToUpdate, m1) == SqlForPartialUpdate(dataToUpdate, m2)
  {
    var keys := Keys(dataToUpdate);
    if |keys| > 0 {
      forall idx | 0 <= idx < |keys|
        ensures Columns(keys, m1)[idx] == Columns(keys, m2)[idx]
      {
        assert keys[idx] in KeySet(dataToUpdate);
      }
      assert Columns(keys, m1) == Columns(keys, m2);
    }
  }

  /** Translation entries for names that are not being updated have no effect. */
  lemma UnusedTranslationsIgnored<V>(dataToUpdate: seq<(string, V)>, jsToSql: map<string, string>)
    ensures SqlForPartialUpdate(dataToUpdate, jsToSql)
         == SqlForPartialUpdate(dataToUpdate, map k | k in jsToSql && k in KeySet(dataToUpdate) :: jsToSql[k])
  {
    ResultDependsOnResolvedColumns(dataToUpdate, jsToSql, map k | k in jsToSql && k in KeySet(dataToUpdate) :: jsToSql[k]);
  }

  /** Under JavaScript's `||`, translating a name to "" is the same as not
      translating it at all. */
  lemma EmptyTranslationIsNoTranslation<V>(dataToUpdate: seq<(string, V)>, jsToSql: map<string, string>, name: string)
    ensures SqlForPartialUpdate(dataToUpdate, jsToSql[name := ""])
         == SqlForPartialUpdate(dataToUpdate, jsToSql - {name})
  {
    ResultDependsOnResolvedColumns(dataToUpdate, jsToSql[name := ""], jsToSql - {name});
  }
}
