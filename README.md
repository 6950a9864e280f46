# sqlForPartialUpdate, modelled in Dafny

The Jobly back end builds the SET clause of its partial-update queries with
one helper, `sqlForPartialUpdate(dataToUpdate, jsToSql)`. The helper takes
the changed fields of a record and a table that translates JavaScript field
names into database column names. It returns:

- `setCols`: the SET fragment, `"col1"=$1, "col2"=$2, ...`, one item per field
  in field order, numbered from 1 and joined with `", "`;
- `values`: the field values in the same order, so `values[i - 1]` binds to `$i`.

The helper throws a `BadRequestError` with the message "No data" when there are
no fields.

The project has four modules:

- `Decimal` (decimal.dfy): the decimal rendering of a placeholder number,
  as a template literal renders `idx + 1`. It also has a reader that proves
  the rendering can be read back.
- `Sql` (sql.dfy): the helper itself, `SqlForPartialUpdate`.
  - The fields are an ordered sequence of `(name, value)` pairs. This stands
    for a JavaScript object whose `Object.keys` and `Object.values` share one
    order.
  - The translation table is a `map<string, string>`.
  - The thrown error is the `Failure(BadRequest("No data"))` variant of a
    `Result`.
  - Values have a type parameter `V`, because the helper never inspects them.
- `SetClause` (set_clause.dfy): a reader for SET clauses, the partner of the
  builder. Reading back the clause the builder produced gives exactly one
  assignment per field, in field order. Each assignment has the column that
  field resolves to and placeholder `i + 1`. This is how placeholder count,
  numbering, order, column choice and value alignment are stated and proved.
- `Scenarios` (scenarios.dfy): examples computed on concrete inputs, among
  them the one in the helper's own comment.

Column resolution follows the code, `jsToSql[colName] || colName`. The
translation is used only when the name is present in the table AND its
translation is not the empty string. JavaScript's `||` skips `""`, so a
translation to `""` is never used and the field name is the column
(`Sql.EmptyTranslationIsNoTranslation`, `Scenarios.EmptyTranslationFallsBack`).

The model does not require distinct field names. A JavaScript object cannot
have duplicate keys, and the builder never relies on distinctness. A sequence
with a repeated name gives one fragment and one value per pair, with no
deduplication.

## Model

| member | source | states |
|---|---|---|
| `Sql.SqlForPartialUpdate` | helpers/sql.js:15-37 | fails with `BadRequest("No data")` exactly when there are no fields; otherwise `values` has one entry per field, and entry i is the value of field i, unchanged (falsy values included) |
| `Sql.ResolveColumn` | helpers/sql.js:30 | the column is the translation when the name is in the table and its translation is non-empty, and the field name itself when the name is absent or maps to "" |
| `Sql.Keys` | helpers/sql.js:23 | `Object.keys`: one name per field, name i being field i's name, in field order |
| `Sql.Values` | helpers/sql.js:35 | `Object.values`: one value per field, value i being field i's value, in the same order as `Keys` |
| `Sql.Fragment` | helpers/sql.js:30 | the template literal: a fragment opens with `"`, has the closing `"` right after the column, and ends with a digit of the placeholder; that it reads back as exactly its column and placeholder is `SetClause.ReadFragment` |
| `Sql.Columns` | helpers/sql.js:29-31 | `keys.map`: one fragment per key; that fragment i carries key i's resolved column and placeholder i + 1 is proved through the reader, in `SetClause.SetClauseReadsBack` |
| `Sql.Join` | helpers/sql.js:34 | `cols.join(", ")`: joining no parts gives ""; its length, its ends and how it splits are `Sql.JoinLength`, `Sql.JoinEnds` and `Sql.JoinAppend` |
| `Sql.JoinLength` | helpers/sql.js:34 | joining n >= 1 parts adds exactly n - 1 separators to their total length |
| `Sql.JoinAppend` | helpers/sql.js:34 | joining two non-empty runs of parts is the join of the first run, one separator, and the join of the second |
| `Sql.JoinEnds` | helpers/sql.js:34 | a join of non-empty parts starts with the first part's first character and ends with the last part's last character |
| `Sql.SetClauseHasNoOuterSeparator` | helpers/sql.js:29-34 | for at least one field, `setCols` starts with `"` and ends with a digit, so it has no leading or trailing ", " |
| `Sql.ResultDependsOnResolvedColumns` | helpers/sql.js:29-30 | two translation tables that resolve every updated field to the same column give identical results |
| `Sql.UnusedTranslationsIgnored` | helpers/sql.js:29-30 | dropping every translation entry for a name not being updated leaves the result unchanged |
| `Sql.EmptyTranslationIsNoTranslation` | helpers/sql.js:30 | translating a name to "" gives the same result as having no entry for it |
| `Decimal.NatToString` | helpers/sql.js:30 | a placeholder number renders as one or more digits, and a numeral of two or more digits never starts with 0 |
| `Decimal.CanonicalNumeral` | helpers/sql.js:30 | every digit string without a leading zero is the rendering of its own value |
| `Decimal.StringToNatInverts` | helpers/sql.js:30 | reading a rendered placeholder number gives back the number |
| `Decimal.NatToStringInjective` | helpers/sql.js:30 | distinct placeholder numbers render differently |
| `Decimal.DigitRunOfNumeral` | helpers/sql.js:30 | the run of digits at the front of a numeral followed by a non-digit (", " or the end) is exactly as long as the numeral |
| `SetClause.ReadNumberCanonical` | helpers/sql.js:30 | whatever number the reader accepts was written as that number's rendering followed by the rest, so `$01` is never read as placeholder 1 |
| `SetClause.ReadFragment` | helpers/sql.js:30 | the fragment `"col"=$k`, followed by anything not starting with a digit, reads back as column `col` and placeholder k (col without `"`) |
| `SetClause.ReadJoinedFragments` | helpers/sql.js:29-34 | the ", "-join of fragments numbered from `start` (columns without `"`) reads back as each column with its number, in order |
| `SetClause.ReadAssignmentWritten` | helpers/sql.js:30 | whatever assignment the reader accepts was written as exactly the fragment of its column and placeholder, and its column has no `"` |
| `SetClause.AcceptedClauseIsJoinedFragments` | helpers/sql.js:29-34 | the converse of `ReadJoinedFragments`: any clause the reader accepts is exactly the ", "-join of the fragments of the assignments it reads, so the reader and the fragment writer are inverse to each other |
| `SetClause.SetClauseReadsBack` | helpers/sql.js:23-34 | for the `setCols` of a successful call on n fields, the clause reads back as exactly n assignments with placeholders $1..$n in field order, and assignment i names the column field i resolves to |
| `SetClause.PlaceholdersBindFieldValues` | helpers/sql.js:23-35 | for the `setCols` and `values` of a successful call, and the assignments `setCols` reads back as, assignment i's placeholder p is in 1..n and `values[p - 1]` is the value of field i |
| `Scenarios.TranslatedFields` | helpers/sql.js:11-13 | `{firstName: 'Aliya', age: 32}` gives `"first_name"=$1, "age"=$2` and `['Aliya', 32]` |
| `Scenarios.NoFields` | helpers/sql.js:23-25 | an empty object fails with "No data" |
| `Scenarios.SingleFalseField` | helpers/sql.js:29-35 | `{isActive: false}` gives `"isActive"=$1`, with no separator, and `[false]` |
| `Scenarios.PartlyTranslatedFields` | helpers/sql.js:29-35 | only the translated field of `{a, b, c}` changes name, and the placeholders are $1, $2, $3 in field order |
| `Scenarios.EmptyTranslationFallsBack` | helpers/sql.js:30 | a translation to "" is skipped and the field name is the column |

## Left out

- `BadRequestError` and `../expressError` (helpers/sql.js:2) are not part of this model. The throw is the `Failure(BadRequest("No data"))` result.
- JavaScript object details are not modelled: prototype-chain lookups such as `jsToSql["constructor"]`, the `TypeError` raised when `jsToSql` is `undefined`, and `Object.keys` listing integer-like keys first. The input is an ordered sequence of pairs, and its order is the key order.
- SetClause.SetClauseReadsBack: holds only when no column a field resolves to contains a double quote. The helper does not escape quotes inside column names, so with such a column the clause is ambiguous and cannot be read back. A field name with a `"` that its translation replaces is covered. The builder itself is modelled without this restriction.
- SetClause.PlaceholdersBindFieldValues: holds only when no column a field resolves to contains a double quote, for the same reason. Without escaping, a `"` in a column makes the clause ambiguous.
- Executing the SQL, the database client, and the caller's renumbering of its WHERE-clause placeholders after `values` happen outside the helper and are not modelled.
