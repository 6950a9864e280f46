/** Reading a SET clause back into its assignments. The reader is the
    partner of `Sql.SqlForPartialUpdate`: reading the clause the builder
    produced recovers, in order, each field's column and its placeholder
    number, which is how the builder's placeholder count, numbering, order
    and column choice are stated. */
module SetClause {
  import opened Decimal
  import opened Sql

  datatype Option<T> = None | Some(value: T)

  /** One `"column"=$placeholder` item of a SET clause. */
  datatype Assignment = Assignment(column: string, placeholder: nat)

  predicate NoQuote(s: string) {
    forall i :: 0 <= i < |s| ==> s[i] != '"'
  }

  /** Index of the first double quote in s, or |s| when there is none. */
  function QuoteIndex(s: string): (k: nat)
    ensures k <= |s|
    ensures forall i :: 0 <= i < k ==> s[i] != '"'
    ensures k < |s| ==> s[k] == '"'
    decreases |s|
  {
    if s == [] || s[0] == '"' then 0 else 1 + QuoteIndex(s[1..])
  }

  lemma {:induction false} QuoteIndexAfter(col: string, rest: string)
    requires NoQuote(col)
    requires rest != [] && rest[0] == '"'
    ensures QuoteIndex(col + rest) == |col|
    decreases |col|
  {
    if col != [] {
      assert (col + rest)[1..] == col[1..] + rest;
      QuoteIndexAfter(col[1..], rest);
    } else {
      assert col + rest == rest;
    }
  }

  /** Reads a double-quoted name from the front of s (no escapes: the name
      ends at the next double quote) and returns it with the text after the
      closing quote. */
  function ReadQuoted(s: string): (r: Option<(string, string)>)
    ensures r.Some? ==> |r.value.1| < |s|
  {
    if s == [] || s[0] != '"' then None
    else
      var q := QuoteIndex(s[1..]);
      if q == |s[1..]| then None else Some((s[1..][..q], s[1..][q + 1..]))
  }

  /** Reads a decimal number from the front of s and returns it with the
      text after its last digit. Only the shortest numeral of a number is
      accepted: a leading zero (`$01`) is not. */
  function ReadNumber(s: string): (r: Option<(nat, string)>)
    ensures r.Some? ==> |r.value.1| < |s|
  {
    var d := DigitRun(s);
    if d == 0 || (d >= 2 && s[0] == '0') then None else Some((StringToNat(s[..d]), s[d..]))
  }

  /** Reads one assignment from the front of s and returns it with the text
      that follows it. */
  function ReadAssignment(s: string): (r: Option<(Assignment, string)>)
    ensures r.Some? ==> |r.value.1| < |s|
  {
    match ReadQuoted(s)
    case None => None
    case Some((col, afterQuote)) =>
      if |afterQuote| < 2 || afterQuote[..2] != "=$" then None
      else
        match ReadNumber(afterQuote[2..])
        case None => None
        case Some((position, rest)) => Some((Assignment(col, position), rest))
  }

  /** Reads a whole SET clause: one or more assignments separated by ", ". */
  function ReadSetClause(s: string): (r: Option<seq<Assignment>>)
    ensures r.Some? ==> |r.value| >= 1
    decreases |s|
  {
    match ReadAssignment(s)
    case None => None
    case Some((a, rest)) =>
      if rest == [] then Some([a])
      else if |rest| >= 2 && rest[..2] == Separator then
        match ReadSetClause(rest[2..])
        case None => None
        case Some(more) => Some([a] + more)
      else None
  }

  lemma ReadQuotedName(col: string, rest: string)
    requires NoQuote(col)
    ensures ReadQuoted("\"" + col + "\"" + rest) == Some((col, rest))
  {
    var s := "\"" + col + "\"" + rest;
    assert s[1..] == col + ("\"" + rest);
    QuoteIndexAfter(col, "\"" + rest);
    assert s[1..][..|col|] == col;
    assert s[1..][|col| + 1..] == rest;
  }

  lemma ReadNumeral(position: nat, rest: string)
    requires rest == [] || !IsDigit(rest[0])
    ensures ReadNumber(NatToString(position) + rest) == Some((position, rest))
  {
    var numeral := NatToString(position);
    DigitRunOfNumeral(numeral, rest);
    assert (numeral + rest)[..|numeral|] == numeral;
    assert (numeral + rest)[|numeral|..] == rest;
    StringToNatInverts(position);
  }

  /** The reader accepts only shortest numerals: whatever it reads is the
      rendering of the number it returns, so `$01` is never read as `$1`. */
  lemma ReadNumberCanonical(s: string)
    requires ReadNumber(s).Some?
    ensures s == NatToString(ReadNumber(s).value.0) + ReadNumber(s).value.1
  {
    var d := DigitRun(s);
    CanonicalNumeral(s[..d]);
    assert s == s[..d] + s[d..];
  }

  /** A fragment followed by more text is a quoted column followed by
      `=$`, the numeral and that text. */
  lemma FragmentSplit(col: string, numeral: string, position: nat, rest: string)
    requires numeral == NatToString(position)
    ensures Fragment(col, position) + rest == "\"" + col + "\"" + ("=$" + numeral + rest)
  {
    assert "\"=$" == "\"" + "=$";
  }

  /** An assignment is a quoted column, then `=$`, then a number. */
  lemma ReadAssignmentParts(s: string, col: string, afterQuote: string, position: nat, rest: string)
    requires ReadQuoted(s) == Some((col, afterQuote))
    requires |afterQuote| >= 2 && afterQuote[..2] == "=$"
    requires ReadNumber(afterQuote[2..]) == Some((position, rest))
    ensures ReadAssignment(s) == Some((Assignment(col, position), rest))
  {
  }

  /** After the closing quote comes `=$` and the placeholder number. */
  lemma ReadPlaceholder(position: nat, rest: string)
    requires rest == [] || !IsDigit(rest[0])
    ensures var afterQuote := "=$" + NatToString(position) + rest;
      |afterQuote| >= 2 && afterQuote[..2] == "=$" && ReadNumber(afterQuote[2..]) == Some((position, rest))
  {
    var afterQuote := "=$" + NatToString(position) + rest;
    assert afterQuote[2..] == NatToString(position) + rest;
    ReadNumeral(position, rest);
  }

  /** A fragment followed by anything that does not start with a digit is
      read as exactly that fragment's column and placeholder. */
  lemma ReadFragment(col: string, position: nat, rest: string)
    requires NoQuote(col)
    requires rest == [] || !IsDigit(rest[0])
    ensures ReadAssignment(Fragment(col, position) + rest) == Some((Assignment(col, position), rest))
  {
    var afterQuote := "=$" + NatToString(position) + rest;
    FragmentSplit(col, NatToString(position), position, rest);
    ReadQuotedName(col, afterQuote);
    ReadPlaceholder(position, rest);
    ReadAssignmentParts(Fragment(col, position) + rest, col, afterQuote, position, rest);
  }

  /** A fragment on its own is read as a one-assignment clause. */
  lemma ReadSingleFragment(col: string, position: nat)
    requires NoQuote(col)
    ensures ReadSetClause(Fragment(col, position)) == Some([Assignment(col, position)])
  {
    ReadFragment(col, position, []);
    assert Fragment(col, position) + [] == Fragment(col, position);
  }

  /** A fragment followed by ", " is read as its assignment, followed by
      whatever the rest of the clause reads as. */
  lemma ReadFragmentThenSeparator(col: string, position: nat, tail: string)
    requires NoQuote(col)
    ensures ReadSetClause(Fragment(col, position) + (Separator + tail))
         == match ReadSetClause(tail)
            case None => None
            case Some(more) => Some([Assignment(col, position)] + more)
  {
    var rest := Separator + tail;
    ReadFragment(col, position, rest);
    assert rest[..2] == Separator;
    assert rest[2..] == tail;
  }

  /** A quoted name the reader accepts was written as `"name"` with no
      double quote inside. */
  lemma ReadQuotedWritten(s: string, name: string, rest: string)
    requires ReadQuoted(s) == Some((name, rest))
    ensures NoQuote(name)
    ensures s == "\"" + name + "\"" + rest
  {
    var t := s[1..];
    var q := QuoteIndex(t);
    assert name == t[..q] && rest == t[q + 1..] && t[q] == '"';
    assert t == name + [t[q]] + rest;
    assert s == [s[0]] + t;
  }

  /** An assignment the reader accepts was written as the fragment of its
      column and placeholder, with a column free of double quotes. */
  lemma ReadAssignmentWritten(s: string, a: Assignment, rest: string)
    requires ReadAssignment(s) == Some((a, rest))
    ensures NoQuote(a.column)
    ensures s == Fragment(a.column, a.placeholder) + rest
  {
    var afterQuote := ReadAssignmentStep(s, a, rest);
    var numeral := NatToString(a.placeholder);
    calc {
      s;
      { ReadQuotedWritten(s, a.column, afterQuote); }
      "\"" + a.column + "\"" + afterQuote;
      { ReadNumberCanonical(afterQuote[2..]); }
      "\"" + a.column + "\"" + ("=$" + (numeral + rest));
      { assert "=$" + (numeral + rest) == "=$" + numeral + rest; }
      "\"" + a.column + "\"" + ("=$" + numeral + rest);
      { FragmentSplit(a.column, numeral, a.placeholder, rest); }
      Fragment(a.column, a.placeholder) + rest;
    }
    ReadQuotedWritten(s, a.column, afterQuote);
  }

  /** An assignment the reader accepts is a quoted name, then `=$`, then a
      number. */
  lemma ReadAssignmentStep(s: string, a: Assignment, rest: string) returns (afterQuote: string)
    requires ReadAssignment(s) == Some((a, rest))
    ensures ReadQuoted(s) == Some((a.column, afterQuote))
    ensures |afterQuote| >= 2 && afterQuote == "=$" + afterQuote[2..]
    ensures ReadNumber(afterQuote[2..]) == Some((a.placeholder, rest))
  {
    afterQuote := ReadQuoted(s).value.1;
    assert afterQuote == afterQuote[..2] + afterQuote[2..];
  }

  /** The fragments the assignments are written as. */
  function WrittenFragments(assignments: seq<Assignment>): (frags: seq<string>)
    ensures |frags| == |assignments|
    ensures forall i :: 0 <= i < |assignments| ==>
      frags[i] == Fragment(assignments[i].column, assignments[i].placeholder)
  {
    seq(|assignments|, i requires 0 <= i < |assignments| => Fragment(assignments[i].column, assignments[i].placeholder))
  }

  lemma WrittenFragmentsCons(a: Assignment, more: seq<Assignment>)
    ensures WrittenFragments([a] + more) == [Fragment(a.column, a.placeholder)] + WrittenFragments(more)
  {
    var lhs := WrittenFragments([a] + more);
    var rhs := [Fragment(a.column, a.placeholder)] + WrittenFragments(more);
    forall i | 0 <= i < |lhs|
      ensures lhs[i] == rhs[i]
    {
      if i > 0 {
        assert ([a] + more)[i] == more[i - 1];
      }
    }
  }

  /** A clause the reader accepts is an assignment, followed either by the
      end or by ", " and a shorter clause the reader accepts. */
  lemma ReadSetClauseStep(s: string, assignments: seq<Assignment>) returns (a: Assignment, rest: string)
    requires ReadSetClause(s) == Some(assignments)
    ensures ReadAssignment(s) == Some((a, rest))
    ensures rest == [] ==> assignments == [a]
    ensures rest != [] ==>
              |rest| >= 2 && rest == Separator + rest[2..] && |rest[2..]| < |s|
              && |assignments| >= 2 && assignments == [a] + assignments[1..]
              && ReadSetClause(rest[2..]) == Some(assignments[1..])
  {
    a, rest := ReadAssignment(s).value.0, ReadAssignment(s).value.1;
    if rest != [] {
      assert rest == rest[..2] + rest[2..];
    }
  }

  /** The converse of reading back: every clause the reader accepts is
      exactly the ", "-join of the fragments of what it reads, each column
      free of double quotes. Together with `ReadJoinedFragments`, the reader
      and the fragment writer are inverse to each other. */
  lemma {:induction false} AcceptedClauseIsJoinedFragments(s: string, assignments: seq<Assignment>)
    requires ReadSetClause(s) == Some(assignments)
    ensures forall i :: 0 <= i < |assignments| ==> NoQuote(assignments[i].column)
    ensures s == Join(WrittenFragments(assignments), Separator)
    decreases |s|
  {
    var a, rest := ReadSetClauseStep(s, assignments);
    var first := Fragment(a.column, a.placeholder);
    ReadAssignmentWritten(s, a, rest);
    if rest == [] {
      assert WrittenFragments(assignments) == [first];
      assert s == first + rest;
    } else {
      var more := assignments[1..];
      AcceptedClauseIsJoinedFragments(rest[2..], more);
      forall i | 0 <= i < |assignments|
        ensures NoQuote(assignments[i].column)
      {
        if i > 0 {
          assert assignments[i] == more[i - 1];
        }
      }
      WrittenFragmentsCons(a, more);
      JoinCons(first, WrittenFragments(more), Separator);
    }
  }

  /** The fragments of cols, numbered from start. */
  function FragmentsFrom(cols: seq<string>, start: nat): (frags: seq<string>)
    ensures |frags| == |cols|
    ensures forall i :: 0 <= i < |cols| ==> frags[i] == Fragment(cols[i], start + i)
    decreases |cols|
  {
    if cols == [] then [] else [Fragment(cols[0], start)] + FragmentsFrom(cols[1..], start + 1)
  }

  /** The assignments of cols, numbered from start. */
  function AssignmentsFrom(cols: seq<string>, start: nat): (assignments: seq<Assignment>)
    ensures |assignments| == |cols|
    ensures forall i :: 0 <= i < |cols| ==> assignments[i] == Assignment(cols[i], start + i)
    decreases |cols|
  {
    if cols == [] then [] else [Assignment(cols[0], start)] + AssignmentsFrom(cols[1..], start + 1)
  }

  /** Reading back the join of fragments numbered start, start + 1, ...
      gives each column with its number, in order. */
  lemma {:induction false} ReadJoinedFragments(cols: seq<string>, start: nat)
    requires |cols| >= 1
    requires forall i :: 0 <= i < |cols| ==> NoQuote(cols[i])
    ensures ReadSetClause(Join(FragmentsFrom(cols, start), Separator)) == Some(AssignmentsFrom(cols, start))
    decreases |cols|
  {
    var first := Fragment(cols[0], start);
    if |cols| == 1 {
      calc {
        ReadSetClause(Join(FragmentsFrom(cols, start), Separator));
        { assert FragmentsFrom(cols, start) == [first]; }
        ReadSetClause(first);
        { ReadSingleFragment(cols[0], start); }
        Some([Assignment(cols[0], start)]);
        { assert AssignmentsFrom(cols, start) == [Assignment(cols[0], start)]; }
        Some(AssignmentsFrom(cols, start));
      }
    } else {
      var tail := Join(FragmentsFrom(cols[1..], start + 1), Separator);
      calc {
        ReadSetClause(Join(FragmentsFrom(cols, start), Separator));
        { JoinCons(first, FragmentsFrom(cols[1..], start + 1), Separator); }
        ReadSetClause(first + (Separator + tail));
        { ReadFragmentThenSeparator(cols[0], start, tail);
          ReadJoinedFragments(cols[1..], start + 1); }
        Some([Assignment(cols[0], start)] + AssignmentsFrom(cols[1..], start + 1));
      }
    }
  }

  /** No column a field resolves to contains a double quote, so the quoting
      in the SET clause is unambiguous. */
  predicate Unquoted<V>(dataToUpdate: seq<(string, V)>, jsToSql: map<string, string>) {
    forall i :: 0 <= i < |dataToUpdate| ==> NoQuote(ResolveColumn(dataToUpdate[i].0, jsToSql))
  }

  /** For n >= 1 fields, the SET clause reads back as exactly n assignments
      with placeholders $1..$n in field order, the i-th naming the column
      the i-th field resolves to. */
  lemma SetClauseReadsBack<V>(dataToUpdate: seq<(string, V)>, jsToSql: map<string, string>,
                              setCols: string, values: seq<V>)
    requires Unquoted(dataToUpdate, jsToSql)
    requires SqlForPartialUpdate(dataToUpdate, jsToSql) == Success(PartialUpdate(setCols, values))
    ensures ReadSetClause(setCols).Some?
    ensures |ReadSetClause(setCols).value| == |dataToUpdate|
    ensures forall i :: 0 <= i < |dataToUpdate| ==>
      ReadSetClause(setCols).value[i] == Assignment(ResolveColumn(dataToUpdate[i].0, jsToSql), i + 1)
  {
    var keys := Keys(dataToUpdate);
    var resolved := seq(|keys|, i requires 0 <= i < |keys| => ResolveColumn(keys[i], jsToSql));
    assert setCols == Join(FragmentsFrom(resolved, 1), Separator) by {
      assert Columns(keys, jsToSql) == FragmentsFrom(resolved, 1);
    }
    assert ReadSetClause(setCols) == Some(AssignmentsFrom(resolved, 1)) by {
      ReadJoinedFragments(resolved, 1);
    }
  }

  /** Assignments numbered 1, 2, ... in field order, against values in
      field order, bind each field's value. */
  lemma AlignedByPosition<V>(assignments: seq<Assignment>, values: seq<V>, dataToUpdate: seq<(string, V)>)
    requires |assignments| == |values| == |dataToUpdate|
    requires forall i :: 0 <= i < |assignments| ==> assignments[i].placeholder == i + 1
    requires forall i :: 0 <= i < |values| ==> values[i] == dataToUpdate[i].1
    ensures forall i :: 0 <= i < |dataToUpdate| ==>
      1 <= assignments[i].placeholder <= |values| && values[assignments[i].placeholder - 1] == dataToUpdate[i].1
  {
  }

  /** Placeholder/value alignment: for the clause and values of a
      successful call, and the assignments the clause reads back as, the
      value bound to the placeholder of the i-th assignment is the value of
      the i-th field. */
  lemma PlaceholdersBindFieldValues<V>(dataToUpdate: seq<(string, V)>, jsToSql: map<string, string>,
                                       setCols: string, values: seq<V>, assignments: seq<Assignment>)
    requires Unquoted(dataToUpdate, jsToSql)
    requires SqlForPartialUpdate(dataToUpdate, jsToSql) == Success(PartialUpdate(setCols, values))
    requires ReadSetClause(setCols) == Some(assignments)
    ensures |assignments| == |values| == |dataToUpdate|
    ensures forall i :: 0 <= i < |dataToUpdate| ==>
      1 <= assignments[i].placeholder <= |values| && values[assignments[i].placeholder - 1] == dataToUpdate[i].1
  {
    assert |assignments| == |dataToUpdate| && forall i :: 0 <= i < |assignments| ==> assignments[i].placeholder == i + 1 by {
      SetClauseReadsBack(dataToUpdate, jsToSql, setCols, values);
    }
    AlignedByPosition(assignments, values, dataToUpdate);
  }
}
