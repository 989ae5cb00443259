/** The human-readable dumps (`operator<<`) of queries, inserts and updates,
    and the insert and update constructors with their size check. A dump is
    the statement line followed by one `  bind_...` line per bound value. */
module SqlDump {
  import opened SqlTypes
  import opened Render
  import opened SeqLemmas
  import opened SqlStatement

  /** What a bind line shows after `bind_`: the call and its arguments.
      Text and blob values show their length in bytes (`length()` of the
      UTF-8 string); integers are cast back and print in decimal; a double
      prints at the stream's default precision. */
  function BindCall(v: BindValue): string {
    match v
    case Blob(s) => "blob(\"" + s + "\", " + IntText(Utf8Length(s)) + ")"
    case Text(s) => "text(\"" + s + "\", " + IntText(Utf8Length(s)) + ")"
    case Int(n) => "int(" + IntText(n) + ")"
    case Int64(n) => "int64(" + IntText(n) + ")"
    case Double(n) => "double(" + StreamedNumber(n) + ")"
    case Null => "null(nullptr);"
  }

  /** A double of 1234567 shows as `double(1.23457e+06)`; a one-character
      text outside ASCII shows its two-byte length. */
  lemma BindCallExamples()
    ensures BindCall(Double(1234567)) == "double(" + "1.23457e+06" + ")"
    ensures BindCall(Text("\U{e9}")) == "text(\"" + "\U{e9}" + "\", " + "2" + ")"
  {
    StreamedExample();
    Utf8Example();
    assert IntText(2) == "2";
  }

  function BindLine(v: BindValue): string {
    "  bind_" + BindCall(v) + "\n"
  }

  /** The where clause's bind lines: joiners are skipped, every other
      element prints one line. Line `i` describes the value bound at
      position `i + 1`. */
  function WhereBindLines(w: seq<QueryElement>): (r: seq<string>)
    ensures |r| == |Conditions(w)|
    ensures forall i :: 0 <= i < |r| ==> r[i] == BindLine(Conditions(w)[i].value)
    ensures forall i :: 0 <= i < |r| ==> r[i] == BindLine(BindingsFrom(w, 1)[i].value)
    decreases |w|
  {
    if w == [] then []
    else if w[0].Join? then WhereBindLines(w[1..])
    else [BindLine(w[0].value)] + WhereBindLines(w[1..])
  }

  /** The statement line of a query dump: like the prepared text, but with
      the fields in parentheses, and closed by `";"` and a newline. */
  function QueryStatementLine(q: Query): string {
    "SELECT (" + CommaList(q.fields, false) + ")" + SelectRest(q) + ";\n"
  }

  /** `operator<<(ostream, query)`. */
  function QueryDump(q: Query): string {
    QueryStatementLine(q) + (if |q.where| > 0 then Concat(WhereBindLines(q.where)) else "")
  }

  /** The dump and the prepared text differ only in the parentheses around
      the field list and the closing `";"`; after the statement line come
      exactly the where clause's bind lines. */
  lemma QueryDumpMatchesSelectText(q: Query)
    ensures var fields := CommaList(q.fields, false);
            var rest := SelectText(q)[|"SELECT " + fields|..];
            QueryDump(q) == "SELECT (" + fields + ")" + rest + ";\n" + Concat(WhereBindLines(q.where))
  {
    var fields := CommaList(q.fields, false);
    assert SelectText(q)[|"SELECT " + fields|..] == SelectRest(q);
    if q.where == [] {
      assert WhereBindLines(q.where) == [];
    }
  }

  /** The insert constructor: fields and terms must pair up. */
  function MakeInsert(table: string, fields: seq<string>, terms: seq<BindValue>): (r: Result<Insert>)
    ensures r.Err? <==> |fields| != |terms|
    ensures r.Err? ==> r.msg == FIELDS_MISMATCH
    ensures r.Ok? ==> r.value.table == table && r.value.fields == fields && r.value.terms == terms
  {
    if |fields| != |terms| then Err(FIELDS_MISMATCH) else Ok(Insert(table, fields, terms))
  }

  /** `_INSERT`: forwards to the constructor, so it fails the same way. */
  function InsertOf(table: string, fields: seq<string>, terms: seq<BindValue>): (r: Result<Insert>)
    ensures r.Err? <==> |fields| != |terms|
    ensures r.Err? ==> r.msg == FIELDS_MISMATCH
    ensures r.Ok? ==> r.value == Insert(table, fields, terms) && |r.value.fields| == |r.value.terms|
  {
    MakeInsert(table, fields, terms)
  }

  /** One bind line per term, in term order. */
  function TermLines(terms: seq<BindValue>): (r: seq<string>)
    ensures |r| == |terms|
    ensures forall i :: 0 <= i < |r| ==> r[i] == BindLine(terms[i])
    decreases |terms|
  {
    if terms == [] then [] else [BindLine(terms[0])] + TermLines(terms[1..])
  }

  /** One `?` per term. */
  function Placeholders(n: nat): (r: seq<string>)
    ensures |r| == n
    ensures forall i :: 0 <= i < n ==> r[i] == "?"
  {
    seq(n, _ => "?")
  }

  function InsertStatementLine(ins: Insert): string {
    "INSERT INTO " + ins.table + " (" + CommaList(ins.fields, false) + ") VALUES ("
      + CommaList(Placeholders(|ins.terms|), false) + ");\n"
  }

  /** `operator<<(ostream, insert)`. */
  function InsertDump(ins: Insert): string {
    InsertStatementLine(ins) + Concat(TermLines(ins.terms))
  }

  lemma {:induction false} MarksSumPlaceholders(items: seq<string>)
    requires forall i :: 0 <= i < |items| ==> items[i] == "?"
    ensures MarksSum(items) == |items|
    decreases |items|
  {
    if items != [] {
      assert items[0] == "?";
      MarkMarks();
      MarksSumPlaceholders(items[1..]);
    }
  }

  lemma InsertLiteralMarks()
    ensures Marks("INSERT INTO ") == 0 && Marks(" (") == 0
    ensures Marks(") VALUES (") == 0 && Marks(");\n") == 0
  {
    InsertIntoMarks();
    ValuesMarks();
    OpenMarks();
    InsertEndMarks();
  }

  lemma OpenMarks()
    ensures Marks(" (") == 0
  {
    MarksNone(" (");
  }

  lemma InsertEndMarks()
    ensures Marks(");\n") == 0
  {
    MarksNone(");\n");
  }

  lemma InsertIntoMarks()
    ensures Marks("INSERT INTO ") == 0
  {
    MarksNone("INSERT INTO ");
  }

  lemma ValuesMarks()
    ensures Marks(") VALUES (") == 0
  {
    MarksNone(") VALUES (");
  }

  /** A constructed insert's statement has one `?` per field, which is also
      one per bind line. */
  lemma InsertPlaceholdersMatchFields(table: string, fields: seq<string>, terms: seq<BindValue>)
    requires MakeInsert(table, fields, terms).Ok?
    requires MARK !in table && forall i :: 0 <= i < |fields| ==> MARK !in fields[i]
    ensures var ins := MakeInsert(table, fields, terms).value;
            Marks(InsertStatementLine(ins)) == |fields| == |TermLines(ins.terms)|
  {
    var ins := MakeInsert(table, fields, terms).value;
    var f := CommaList(fields, false);
    var p := CommaList(Placeholders(|terms|), false);
    MarksCommaList(fields, false);
    MarksSumNone(fields);
    MarksCommaList(Placeholders(|terms|), false);
    MarksSumPlaceholders(Placeholders(|terms|));
    InsertLiteralMarks();
    MarksNone(table);
    Marks7("INSERT INTO ", table, " (", f, ") VALUES (", p, ");\n");
  }

  /** The update constructors: fields and terms must pair up; the where
      clause is empty for the three-argument form. */
  function MakeUpdate(table: string, fields: seq<string>, terms: seq<BindValue>,
                      where: seq<QueryElement>): (r: Result<Update>)
    ensures r.Err? <==> |fields| != |terms|
    ensures r.Err? ==> r.msg == FIELDS_MISMATCH
    ensures r.Ok? ==> r.value.table == table && r.value.fields == fields
                      && r.value.terms == terms && r.value.where == where
  {
    if |fields| != |terms| then Err(FIELDS_MISMATCH) else Ok(Update(table, fields, terms, where))
  }

  /** `_UPDATE(table, fields, terms)`: no where clause. */
  function UpdateOf(table: string, fields: seq<string>, terms: seq<BindValue>): (r: Result<Update>)
    ensures r.Err? <==> |fields| != |terms|
    ensures r.Err? ==> r.msg == FIELDS_MISMATCH
    ensures r.Ok? ==> r.value == Update(table, fields, terms, []) && |r.value.fields| == |r.value.terms|
  {
    MakeUpdate(table, fields, terms, [])
  }

  /** `_UPDATE(table, fields, terms, where)`. */
  function UpdateWhereOf(table: string, fields: seq<string>, terms: seq<BindValue>,
                         where: seq<QueryElement>): (r: Result<Update>)
    ensures r.Err? <==> |fields| != |terms|
    ensures r.Err? ==> r.msg == FIELDS_MISMATCH
    ensures r.Ok? ==> r.value == Update(table, fields, terms, where) && |r.value.fields| == |r.value.terms|
  {
    MakeUpdate(table, fields, terms, where)
  }

  /** `field = ?` for each assigned field. */
  function Assignments(fields: seq<string>): (r: seq<string>)
    ensures |r| == |fields|
    ensures forall i :: 0 <= i < |r| ==> r[i] == fields[i] + " = ?"
  {
    seq(|fields|, i requires 0 <= i < |fields| => fields[i] + " = ?")
  }

  function UpdateStatementLine(u: Update): string {
    "UPDATE " + u.table + " SET " + CommaList(Assignments(u.fields), false)
      + WhereSection(u.where) + ";\n"
  }

  /** `operator<<(ostream, update)`. */
  function UpdateDump(u: Update): string {
    UpdateStatementLine(u) + Concat(TermLines(u.terms))
      + (if |u.where| > 0 then Concat(WhereBindLines(u.where)) else "")
  }

  /** The bind lines of an update: all the terms first, then the where
      clause's conditions with joiners skipped. */
  function UpdateBindLines(u: Update): (r: seq<string>)
    ensures |r| == |u.terms| + |Conditions(u.where)|
  {
    TermLines(u.terms) + WhereBindLines(u.where)
  }

  /** Line `i` of an update's bindings binds term `i`; after the terms, line
      `|terms| + i` binds where condition `i`. */
  lemma UpdateBindLinesOrder(u: Update)
    ensures UpdateBindLines(u)[..|u.terms|] == TermLines(u.terms)
    ensures forall i :: 0 <= i < |u.terms| ==> UpdateBindLines(u)[i] == BindLine(u.terms[i])
    ensures forall i :: 0 <= i < |Conditions(u.where)| ==>
              UpdateBindLines(u)[|u.terms| + i] == BindLine(Conditions(u.where)[i].value)
  {
    AppendIndex(TermLines(u.terms), WhereBindLines(u.where));
  }

  /** An update's dump is its statement line followed by its bind lines. */
  lemma UpdateDumpIsLines(u: Update)
    ensures UpdateDump(u) == UpdateStatementLine(u) + Concat(UpdateBindLines(u))
  {
    var t, w := TermLines(u.terms), WhereBindLines(u.where);
    ConcatAppend(t, w);
    assert u.where == [] ==> Concat(w) == "";
    AppendAssoc(UpdateStatementLine(u), Concat(t), Concat(w));
  }

  lemma {:induction false} MarksSumAssignments(fields: seq<string>)
    requires forall i :: 0 <= i < |fields| ==> MARK !in fields[i]
    ensures MarksSum(Assignments(fields)) == |fields|
    decreases |fields|
  {
    if fields != [] {
      MarksNone(fields[0]);
      AssignMarks();
      Marks3(fields[0], " = ", "?");
      MarkMarks();
      assert fields[0] + " = ?" == fields[0] + " = " + "?";
      assert Assignments(fields)[1..] == Assignments(fields[1..]);
      MarksSumAssignments(fields[1..]);
    }
  }

  lemma UpdateLiteralMarks()
    ensures Marks("UPDATE ") == 0 && Marks(" SET ") == 0 && Marks(";\n") == 0
  {
    UpdateKeywordMarks();
    SetMarks();
    StatementEndMarks();
  }

  lemma AssignMarks()
    ensures Marks(" = ") == 0
  {
    MarksNone(" = ");
  }

  lemma UpdateKeywordMarks()
    ensures Marks("UPDATE ") == 0
  {
    MarksNone("UPDATE ");
  }

  lemma SetMarks()
    ensures Marks(" SET ") == 0
  {
    MarksNone(" SET ");
  }

  lemma StatementEndMarks()
    ensures Marks(";\n") == 0
  {
    MarksNone(";\n");
  }

  /** A constructed update's statement has one `?` per bind line: one per
      assigned field and one per where condition. */
  lemma UpdatePlaceholdersMatchBindLines(table: string, fields: seq<string>, terms: seq<BindValue>,
                                         where: seq<QueryElement>)
    requires MakeUpdate(table, fields, terms, where).Ok?
    requires MARK !in table && forall i :: 0 <= i < |fields| ==> MARK !in fields[i]
    requires forall i :: 0 <= i < |where| ==> WhereMarkFree(where[i])
    ensures var u := MakeUpdate(table, fields, terms, where).value;
            Marks(UpdateStatementLine(u)) == |UpdateBindLines(u)| == |fields| + |Conditions(where)|
  {
    var u := MakeUpdate(table, fields, terms, where).value;
    var a := CommaList(Assignments(fields), false);
    MarksCommaList(Assignments(fields), false);
    MarksSumAssignments(fields);
    WhereSectionMarks(where);
    UpdateLiteralMarks();
    MarksNone(table);
    Marks7("UPDATE ", table, " SET ", a, WhereSection(where), ";\n", "");
    assert UpdateStatementLine(u) + "" == UpdateStatementLine(u);
  }
}
