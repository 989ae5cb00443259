/** The `_SELECT` overloads, and what the builders do to the prepared text
    and to the bindings: a LIMIT or ORDER_BY clause appends its keyword and
    value, `append_where` splices the extra conditions in after a joiner, and
    the `_WHERE` family binds its terms in argument order. */
module SqlQueries {
  import opened SqlTypes
  import opened Render
  import opened SeqLemmas
  import opened SqlWhere
  import opened SqlStatement

  /** The text of every SELECT up to its where section. */
  function Head(table: string, fields: seq<string>): string {
    "SELECT " + CommaList(fields, false) + " FROM " + table
  }

  lemma SelectTextSplit(q: Query)
    ensures SelectText(q) == Head(q.table, q.fields) + WhereSection(q.where) + TailText(q.tail)
  {
    var f := CommaList(q.fields, false);
    AppendAssoc("SELECT " + f, " FROM " + q.table, WhereSection(q.where));
    AppendAssoc("SELECT " + f, " FROM " + q.table + WhereSection(q.where), TailText(q.tail));
    AppendAssoc("SELECT " + f, " FROM ", q.table);
  }

  /** Without a where clause the tail follows the table name directly. */
  lemma SelectTextNoWhere(q: Query)
    requires q.where == []
    ensures SelectText(q) == Head(q.table, q.fields) + TailText(q.tail)
  {
    SelectTextSplit(q);
    assert Head(q.table, q.fields) + WhereSection(q.where) == Head(q.table, q.fields);
  }

  /** The text a LIMIT element writes: the keyword and the decimal number. */
  lemma LimitPiece(n: int)
    ensures TailText([LimitElem(n)]) == " LIMIT " + IntText(n)
  {
    assert [LimitElem(n)][1..] == [];
    assert " " + LIMIT + " " == " LIMIT ";
  }

  /** The text an ORDER_BY element writes: the keyword and the field name. */
  lemma OrderByPiece(field: string)
    ensures TailText([OrderByElem(field)]) == " ORDER_BY " + field
  {
    assert [OrderByElem(field)][1..] == [];
    assert " " + ORDER_BY + " " == " ORDER_BY ";
  }

  lemma OrderByLimitPieces(field: string, n: int)
    ensures TailText([OrderByElem(field), LimitElem(n)]) == " ORDER_BY " + field + " LIMIT " + IntText(n)
  {
    TailTextAppend([OrderByElem(field)], [LimitElem(n)]);
    assert [OrderByElem(field)] + [LimitElem(n)] == [OrderByElem(field), LimitElem(n)];
    OrderByPiece(field);
    LimitPiece(n);
  }

  /** `_SELECT(db, table, fields)`. */
  function Select(table: string, fields: seq<string>): (r: Query)
    ensures r.table == table && r.fields == fields && r.where == [] && r.tail == []
    ensures SelectText(r) == Head(table, fields)
  {
    var q := Query(table, fields, [], []);
    SelectTextNoWhere(q);
    assert Head(table, fields) + TailText([]) == Head(table, fields);
    q
  }

  /** `_SELECT(db, table, fields, where)`. */
  function SelectWhere(table: string, fields: seq<string>, where: seq<QueryElement>): (r: Query)
    ensures r.table == table && r.fields == fields && r.where == where && r.tail == []
    ensures SelectText(r) == Head(table, fields) + WhereSection(where)
  {
    var q := Query(table, fields, where, []);
    SelectTextSplit(q);
    q
  }

  /** `_SELECT(db, table, fields, where, LIMIT, n)`. */
  function SelectWhereLimit(table: string, fields: seq<string>, where: seq<QueryElement>, n: int): (r: Query)
    ensures r.table == table && r.fields == fields && r.where == where
    ensures SelectText(r) == Head(table, fields) + WhereSection(where) + " LIMIT " + IntText(n)
  {
    var q := Query(table, fields, where, [LimitElem(n)]);
    SelectTextSplit(q);
    LimitPiece(n);
    q
  }

  /** `_SELECT(db, table, fields, where, ORDERBY, field)`. */
  function SelectWhereOrderBy(table: string, fields: seq<string>, where: seq<QueryElement>,
                              field: string): (r: Query)
    ensures r.table == table && r.fields == fields && r.where == where
    ensures SelectText(r) == Head(table, fields) + WhereSection(where) + " ORDER_BY " + field
  {
    var q := Query(table, fields, where, [OrderByElem(field)]);
    SelectTextSplit(q);
    OrderByPiece(field);
    q
  }

  /** `_SELECT(db, table, fields, where, ORDERBY, field, LIMIT, n)`. */
  function SelectWhereOrderByLimit(table: string, fields: seq<string>, where: seq<QueryElement>,
                                   field: string, n: int): (r: Query)
    ensures r.table == table && r.fields == fields && r.where == where
    ensures SelectText(r) == Head(table, fields) + WhereSection(where)
                             + (" ORDER_BY " + field + " LIMIT " + IntText(n))
  {
    var q := Query(table, fields, where, [OrderByElem(field), LimitElem(n)]);
    SelectTextSplit(q);
    OrderByLimitPieces(field, n);
    q
  }

  /** `_SELECT(db, table, fields, LIMIT, n)`. */
  function SelectLimit(table: string, fields: seq<string>, n: int): (r: Query)
    ensures r.table == table && r.fields == fields && r.where == []
    ensures SelectText(r) == Head(table, fields) + " LIMIT " + IntText(n)
  {
    var q := Query(table, fields, [], [LimitElem(n)]);
    SelectTextNoWhere(q);
    LimitPiece(n);
    q
  }

  /** `_SELECT(db, table, fields, ORDERBY, field)`. */
  function SelectOrderBy(table: string, fields: seq<string>, field: string): (r: Query)
    ensures r.table == table && r.fields == fields && r.where == []
    ensures SelectText(r) == Head(table, fields) + " ORDER_BY " + field
  {
    var q := Query(table, fields, [], [OrderByElem(field)]);
    SelectTextNoWhere(q);
    OrderByPiece(field);
    q
  }

  /** `_SELECT(db, table, fields, ORDERBY, field, LIMIT, n)`. */
  function SelectOrderByLimit(table: string, fields: seq<string>, field: string, n: int): (r: Query)
    ensures r.table == table && r.fields == fields && r.where == []
    ensures SelectText(r) == Head(table, fields) + (" ORDER_BY " + field + " LIMIT " + IntText(n))
  {
    var q := Query(table, fields, [], [OrderByElem(field), LimitElem(n)]);
    SelectTextNoWhere(q);
    OrderByLimitPieces(field, n);
    q
  }

  /** The tail overloads are the plain ones followed by `append_clause`. */
  lemma TailOverloadsAreAppends(table: string, fields: seq<string>, where: seq<QueryElement>,
                                field: string, n: int)
    ensures SelectWhereLimit(table, fields, where, n) == AppendLimit(SelectWhere(table, fields, where), n)
    ensures SelectWhereOrderBy(table, fields, where, field)
            == AppendOrderBy(SelectWhere(table, fields, where), field)
    ensures SelectWhereOrderByLimit(table, fields, where, field, n)
            == AppendLimit(AppendOrderBy(SelectWhere(table, fields, where), field), n)
    ensures SelectLimit(table, fields, n) == AppendLimit(Select(table, fields), n)
    ensures SelectOrderBy(table, fields, field) == AppendOrderBy(Select(table, fields), field)
    ensures SelectOrderByLimit(table, fields, field, n)
            == AppendLimit(AppendOrderBy(Select(table, fields), field), n)
  {
    assert [OrderByElem(field)] + [LimitElem(n)] == [OrderByElem(field), LimitElem(n)];
    assert [] + [LimitElem(n)] == [LimitElem(n)];
    assert [] + [OrderByElem(field)] == [OrderByElem(field)];
  }

  /** `append_clause(LIMIT, n)` adds `" LIMIT n"` to the end of the text and
      nothing else. */
  lemma AppendLimitText(q: Query, n: int)
    ensures SelectText(AppendLimit(q, n)) == SelectText(q) + " LIMIT " + IntText(n)
  {
    var h := Head(q.table, q.fields) + WhereSection(q.where);
    SelectTextSplit(q);
    SelectTextSplit(AppendLimit(q, n));
    TailTextAppend(q.tail, [LimitElem(n)]);
    LimitPiece(n);
    AppendAssoc(h, TailText(q.tail), " LIMIT " + IntText(n));
    AppendAssoc(h + TailText(q.tail), " LIMIT ", IntText(n));
  }

  /** `append_clause(ORDERBY, field)` adds `" ORDER_BY field"` to the end of
      the text and nothing else. */
  lemma AppendOrderByText(q: Query, field: string)
    ensures SelectText(AppendOrderBy(q, field)) == SelectText(q) + " ORDER_BY " + field
  {
    var h := Head(q.table, q.fields) + WhereSection(q.where);
    SelectTextSplit(q);
    SelectTextSplit(AppendOrderBy(q, field));
    TailTextAppend(q.tail, [OrderByElem(field)]);
    OrderByPiece(field);
    AppendAssoc(h, TailText(q.tail), " ORDER_BY " + field);
    AppendAssoc(h + TailText(q.tail), " ORDER_BY ", field);
  }

  /** On a non-empty clause, `append_where` puts the joiner and the extra
      conditions inside the same parentheses, the extra conditions written
      as they would be on their own. */
  lemma AppendWhereSection(q: Query, join: Joiner, extra: seq<QueryElement>)
    requires q.where != []
    ensures WhereSection(AppendWhere(q, join, extra).where)
            == " WHERE (" + (WhereBody(q.where, false) + JoinText(join.Op()) + WhereBody(extra, false)) + ")"
  {
    WhereBodyJoined(q.where, join.Op(), extra, false);
  }

  /** On an empty clause, `append_where` just installs the extra conditions. */
  lemma AppendWhereOnEmpty(q: Query, join: Joiner, extra: seq<QueryElement>)
    requires q.where == []
    ensures SelectText(AppendWhere(q, join, extra)) == SelectText(q.(where := extra))
  {
  }

  /** `append_where` binds the old conditions first, then the extra ones:
      old bind positions do not move. */
  lemma AppendWhereBindings(q: Query, join: Joiner, extra: seq<QueryElement>)
    ensures Conditions(AppendWhere(q, join, extra).where) == Conditions(q.where) + Conditions(extra)
  {
    if q.where == [] {
      assert Conditions(q.where) == [];
    } else {
      ConditionsAppend(q.where, [Join(join.Op())]);
      ConditionsAppend(q.where + [Join(join.Op())], extra);
      assert Conditions([Join(join.Op())]) == [];
    }
  }

  /** The conditions of the further groups of a `_WHERE` call, in argument order. */
  function GroupConds(groups: seq<Group>): (r: seq<QueryElement>)
    ensures |r| == |groups|
    decreases |groups|
  {
    if groups == [] then [] else [CondOf(groups[0].term)] + GroupConds(groups[1..])
  }

  lemma {:induction false} GroupCondsAt(groups: seq<Group>, i: nat)
    requires i < |groups|
    ensures GroupConds(groups)[i] == CondOf(groups[i].term)
    decreases i
  {
    if i > 0 {
      GroupCondsAt(groups[1..], i - 1);
      AppendIndex([CondOf(groups[0].term)], GroupConds(groups[1..]));
      assert groups[1..][i - 1] == groups[i];
    }
  }

  /** A lone element is bound exactly when it is not a joiner. */
  lemma ConditionsOne(e: QueryElement)
    ensures Conditions([e]) == if e.Join? then [] else [e]
  {
    assert [e][1..] == [];
  }

  /** A group's joiner takes no placeholder and its condition takes one. */
  lemma {:induction false} GroupElemsConditions(groups: seq<Group>)
    ensures Conditions(GroupElems(groups)) == GroupConds(groups)
    decreases |groups|
  {
    if groups != [] {
      var j, c := Join(groups[0].join.Op()), CondOf(groups[0].term);
      GroupElemsConditions(groups[1..]);
      ConditionsAppend([j, c], GroupElems(groups[1..]));
      ConditionsAppend([j], [c]);
      assert [j] + [c] == [j, c];
      ConditionsOne(j);
      ConditionsOne(c);
      assert [] + [c] == [c];
    }
  }

  /** The conditions of a `_WHERE` clause are its terms, in argument order. */
  lemma WhereConditions(first: Term, groups: seq<Group>, last: Option<Term>)
    ensures Conditions(Where(first, groups, last)) == [CondOf(first)] + GroupConds(groups) + LastElems(last)
  {
    var head := [CondOf(first)] + GroupElems(groups);
    assert Where(first, groups, last) == head + LastElems(last);
    ConditionsAppend(head, LastElems(last));
    ConditionsAppend([CondOf(first)], GroupElems(groups));
    assert Conditions([CondOf(first)]) == [CondOf(first)] by {
      assert [CondOf(first)][1..] == [];
    }
    GroupElemsConditions(groups);
    if last.Some? {
      ConditionsOne(CondOf(last.value));
    }
  }

  /** Condition `i + 1` of a `_WHERE` clause is the term of group `i`, and a
      trailing bare term comes after all groups. */
  lemma WhereConditionsAt(first: Term, groups: seq<Group>, last: Option<Term>)
    ensures var c := Conditions(Where(first, groups, last));
            |c| == 1 + |groups| + |LastElems(last)| && c[0] == CondOf(first)
            && (forall i :: 0 <= i < |groups| ==> c[i + 1] == CondOf(groups[i].term))
            && (last.Some? ==> c[|groups| + 1] == CondOf(last.value))
  {
    WhereConditions(first, groups, last);
    var c := [CondOf(first)] + GroupConds(groups);
    AppendIndex([CondOf(first)], GroupConds(groups));
    AppendIndex(c, LastElems(last));
    forall i | 0 <= i < |groups|
      ensures c[i + 1] == CondOf(groups[i].term)
    {
      GroupCondsAt(groups, i);
    }
  }

  /** `_WHERE` binds every term, in argument order: the first term at
      position 1, the term of group `i` at position `i + 2`, and a trailing
      bare term last, at position `|groups| + 2`. */
  lemma WhereBindsTerms(first: Term, groups: seq<Group>, last: Option<Term>)
    ensures Conditions(Where(first, groups, last)) == [CondOf(first)] + GroupConds(groups) + LastElems(last)
    ensures var b := BindingsFrom(Where(first, groups, last), 1);
            |b| == 1 + |groups| + |LastElems(last)| && b[0] == Binding(1, first.value)
            && (forall i :: 0 <= i < |groups| ==> b[i + 1] == Binding(i + 2, groups[i].term.value))
            && (last.Some? ==> b[|groups| + 1] == Binding(|groups| + 2, last.value.value))
  {
    WhereConditions(first, groups, last);
    WhereConditionsAt(first, groups, last);
  }

  /** A trailing bare triple follows the condition before it directly, so
      the where loop separates the two with `", "` and no joiner, after any
      number of groups: `_WHERE("a", EQ, 1, AND, "b", EQ, 2, "c", EQ, 3)`
      writes `a == ? AND b == ?, c == ?`. */
  lemma TrailingTermText(first: Term, groups: seq<Group>, last: Term)
    ensures WhereBody(Where(first, groups, Some(last)), false)
            == WhereBody(Where(first, groups, None), false) + CondText(CondOf(last), true)
  {
    var w := Where(first, groups, None);
    assert w + [] == w;
    assert Where(first, groups, Some(last)) == w + [CondOf(last)];
    if groups != [] {
      var k := |groups| - 1;
      assert |w| - 1 == 2 * k + 2;
      assert w[2 * k + 2] == CondOf(groups[k].term);
    }
    WhereBodySnoc(w, CondOf(last), false);
  }

  lemma TrailingTermExample()
    ensures WhereBody(Where(Term("a", EQ, Int(1)), [], Some(Term("b", EQ, Int(2)))), false)
            == "a == ?, b == ?"
  {
    var first := Term("a", EQ, Int(1));
    TrailingTermText(first, [], Term("b", EQ, Int(2)));
    var w := Where(first, [], None);
    assert w == [CondOf(first)];
    assert w[1..] == [];
    assert WhereBody(w, false) == CondText(CondOf(first), false) + "";
    FirstCondText();
    SecondCondText();
  }

  lemma FirstCondText()
    ensures CondText(CondOf(Term("a", EQ, Int(1))), false) == "a == ?"
  {
  }

  lemma SecondCondText()
    ensures CondText(CondOf(Term("b", EQ, Int(2))), true) == ", b == ?"
  {
  }
}
