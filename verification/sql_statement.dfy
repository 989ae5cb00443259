/** `query::bind_stmt`: the placeholdered SELECT text and the positional
    bindings of the where clause's values. The sqlite3 calls are parameters:
    whether preparing the text fails, and whether resetting the statement
    fails, each with the backend's error message. */
module SqlStatement {
  import opened SqlTypes
  import opened Render
  import opened SeqLemmas

  /** The where loop of the serialisers: a joiner writes `" op "` and clears
      the comma flag; any other element writes `field op ?`, after `", "`
      when the flag is set, and sets it. */
  function WhereBody(w: seq<QueryElement>, comma: bool): string
    decreases |w|
  {
    if w == [] then ""
    else if w[0].Join? then JoinText(w[0].op) + WhereBody(w[1..], false)
    else CondText(w[0], comma) + WhereBody(w[1..], true)
  }

  function JoinText(op: string): string {
    " " + op + " "
  }

  function CondText(e: QueryElement, comma: bool): string {
    (if comma then ", " else "") + e.Field() + " " + e.op + " ?"
  }

  /** `" WHERE (" body ")"`, present exactly when the clause is non-empty. */
  function WhereSection(w: seq<QueryElement>): (r: string)
    ensures r == "" <==> w == []
    ensures w != [] ==> |r| >= 9 && r[..8] == " WHERE (" && r[|r| - 1] == ')'
  {
    if |w| > 0 then " WHERE (" + WhereBody(w, false) + ")" else ""
  }

  /** What element `i` of a where clause contributes, told from its
      neighbour rather than from a running flag: a joiner is `" op "`; a
      condition is `field op ?`, preceded by `", "` exactly when the element
      before it is not a joiner. */
  function Piece(w: seq<QueryElement>, i: nat): string
    requires i < |w|
  {
    if w[i].Join? then JoinText(w[i].op)
    else CondText(w[i], i > 0 && !w[i - 1].Join?)
  }

  function PiecesFrom(w: seq<QueryElement>, i: nat): string
    requires i <= |w|
    decreases |w| - i
  {
    if i == |w| then "" else Piece(w, i) + PiecesFrom(w, i + 1)
  }

  lemma {:induction false} WhereBodySuffix(w: seq<QueryElement>, i: nat)
    requires i <= |w|
    ensures WhereBody(w[i..], i > 0 && !w[i - 1].Join?) == PiecesFrom(w, i)
    decreases |w| - i
  {
    if i < |w| {
      WhereBodySuffix(w, i + 1);
      assert w[i..][0] == w[i];
      assert w[i..][1..] == w[i + 1..];
    }
  }

  /** The flag loop writes exactly the pieces, in clause order. */
  lemma WhereBodyIsPieces(w: seq<QueryElement>)
    ensures WhereBody(w, false) == PiecesFrom(w, 0)
  {
    WhereBodySuffix(w, 0);
    assert w[0..] == w;
  }

  /** A joiner resets the flag, so the text of `a ++ [Join(op)] ++ b` is the
      text of `a`, the joiner, then `b` written as if it stood alone. */
  lemma {:induction false} WhereBodyJoined(a: seq<QueryElement>, op: string, b: seq<QueryElement>, comma: bool)
    ensures WhereBody(a + [Join(op)] + b, comma) == WhereBody(a, comma) + JoinText(op) + WhereBody(b, false)
    decreases |a|
  {
    SplitHead(a, Join(op), b);
    if a == [] {
      assert WhereBody(a, comma) == "";
    } else {
      var piece := if a[0].Join? then JoinText(a[0].op) else CondText(a[0], comma);
      var tailBody := WhereBody(a[1..], !a[0].Join?);
      WhereBodyJoined(a[1..], op, b, !a[0].Join?);
      assert WhereBody(a, comma) == piece + tailBody;
      AppendAssoc(piece, tailBody, JoinText(op));
      AppendAssoc(piece, tailBody + JoinText(op), WhereBody(b, false));
    }
  }

  /** Two conditions side by side: the second is written with `", "`. */
  lemma WhereBodyPair(x: QueryElement, e: QueryElement, comma: bool)
    requires !x.Join? && !e.Join?
    ensures WhereBody([x] + [e], comma) == WhereBody([x], comma) + CondText(e, true)
  {
    assert ([x] + [e])[1..] == [e] && [x][1..] == [] && [e][1..] == [];
    assert WhereBody([e], true) == CondText(e, true) + "";
    assert WhereBody([x], comma) == CondText(x, comma) + "";
  }

  /** A condition appended after a condition is written with `", "`: the
      flag is set by the element before it. */
  lemma {:induction false} WhereBodySnoc(a: seq<QueryElement>, e: QueryElement, comma: bool)
    requires a != [] && !a[|a| - 1].Join? && !e.Join?
    ensures WhereBody(a + [e], comma) == WhereBody(a, comma) + CondText(e, true)
    decreases |a|
  {
    var rest := a[1..];
    if rest == [] {
      assert a == [a[0]];
      WhereBodyPair(a[0], e, comma);
    } else {
      assert (a + [e])[0] == a[0] && (a + [e])[1..] == rest + [e];
      assert rest[|rest| - 1] == a[|a| - 1];
      var flag := !a[0].Join?;
      var piece := if a[0].Join? then JoinText(a[0].op) else CondText(a[0], comma);
      WhereBodySnoc(rest, e, flag);
      AppendAssoc(piece, WhereBody(rest, flag), CondText(e, true));
    }
  }

  /** The text after a tail element's keyword: its number when its bind type
      is integer, its text value otherwise (empty for the other numeric
      elements and for joiners, which carry no text value). */
  function ValueText(e: QueryElement): string {
    match e
    case Join(_) => ""
    case Cond(_, _, v) => BoundText(v)
    case Tail(_, v) => BoundText(v)
  }

  function BoundText(v: BindValue): string {
    match v
    case Int(n) => IntText(n)
    case Blob(s) => s
    case Text(s) => s
    case _ => ""
  }

  function TailPiece(e: QueryElement): string {
    " " + e.op + " " + ValueText(e)
  }

  /** The tail loop: each element writes `" op value"`, in list order. */
  function TailText(t: seq<QueryElement>): string
    decreases |t|
  {
    if t == [] then "" else TailPiece(t[0]) + TailText(t[1..])
  }

  lemma {:induction false} TailTextAppend(a: seq<QueryElement>, b: seq<QueryElement>)
    ensures TailText(a + b) == TailText(a) + TailText(b)
    decreases |a|
  {
    if a == [] {
      assert a + b == b;
    } else {
      assert (a + b)[0] == a[0];
      assert (a + b)[1..] == a[1..] + b;
      TailTextAppend(a[1..], b);
    }
  }

  /** What follows the field list in every SELECT: `" FROM "` and the
      table, the where section, then the tail. */
  function SelectRest(q: Query): string {
    " FROM " + q.table + WhereSection(q.where) + TailText(q.tail)
  }

  /** The statement text `bind_stmt` prepares: `"SELECT "`, the fields
      joined by `", "`, then the rest. */
  function SelectText(q: Query): string {
    "SELECT " + CommaList(q.fields, false) + SelectRest(q)
  }

  /** The prepared text opens with `"SELECT "`, the field list, `" FROM "`
      and the table; with no where clause and no tail there is nothing
      after them. */
  lemma SelectTextHead(q: Query)
    ensures |SelectText(q)| >= 7 && SelectText(q)[..7] == "SELECT "
    ensures var head := "SELECT " + CommaList(q.fields, false) + " FROM " + q.table;
            |head| <= |SelectText(q)| && SelectText(q)[..|head|] == head
    ensures q.where == [] && q.tail == [] ==>
              SelectText(q) == "SELECT " + CommaList(q.fields, false) + " FROM " + q.table
  {
    HeadOfSix("SELECT ", CommaList(q.fields, false), " FROM ", q.table,
              WhereSection(q.where), TailText(q.tail));
  }

  /** The elements of a where clause that take a placeholder: every one
      that is not a joiner, in clause order. */
  function Conditions(w: seq<QueryElement>): (r: seq<QueryElement>)
    ensures |r| <= |w|
    ensures forall i :: 0 <= i < |r| ==> !r[i].Join?
    decreases |w|
  {
    if w == [] then [] else (if w[0].Join? then [] else [w[0]]) + Conditions(w[1..])
  }

  lemma {:induction false} ConditionsAppend(a: seq<QueryElement>, b: seq<QueryElement>)
    ensures Conditions(a + b) == Conditions(a) + Conditions(b)
    decreases |a|
  {
    if a == [] {
      assert a + b == b;
    } else {
      assert (a + b)[0] == a[0];
      assert (a + b)[1..] == a[1..] + b;
      ConditionsAppend(a[1..], b);
    }
  }

  /** One `sqlite3_bind_*` call: position and value. */
  datatype Binding = Binding(pos: nat, value: BindValue)

  /** The binding loop from position `next`: joiners are skipped, every
      other element is bound at the next position. */
  function BindingsFrom(w: seq<QueryElement>, next: nat): (r: seq<Binding>)
    ensures |r| == |Conditions(w)|
    ensures forall i :: 0 <= i < |r| ==> r[i].pos == next + i && r[i].value == Conditions(w)[i].value
    decreases |w|
  {
    if w == [] then []
    else if w[0].Join? then BindingsFrom(w[1..], next)
    else [Binding(next, w[0].value)] + BindingsFrom(w[1..], next + 1)
  }

  /** The source's binding loop over the where clause, with its `bind_pos`
      counter starting at 1. */
  method BindWhereClause(w: seq<QueryElement>) returns (binds: seq<Binding>)
    ensures |binds| == |Conditions(w)|
    ensures forall i :: 0 <= i < |binds| ==> binds[i] == Binding(i + 1, Conditions(w)[i].value)
  {
    binds := [];
    var pos: nat := 1;
    var i := 0;
    while i < |w|
      invariant 0 <= i <= |w|
      invariant pos == |binds| + 1
      invariant |binds| == |Conditions(w[..i])|
      invariant forall j :: 0 <= j < |binds| ==> binds[j] == Binding(j + 1, Conditions(w[..i])[j].value)
    {
      assert w[..i + 1] == w[..i] + [w[i]];
      ConditionsAppend(w[..i], [w[i]]);
      assert Conditions([w[i]]) == (if w[i].Join? then [] else [w[i]]) + Conditions([]);
      if !w[i].Join? {
        binds := binds + [Binding(pos, w[i].value)];
        pos := pos + 1;
      }
      i := i + 1;
    }
    assert w[..i] == w;
  }

  /** A statement ready to step: its text and the bindings applied to it. */
  datatype Prepared = Prepared(sql: string, binds: seq<Binding>)

  const PREPARE_FAILED: string := "Failed to prepare statement: "
  const RESET_FAILED: string := "Failed to prepare statement to execute: "

  /** `query::bind_stmt`: write the text, prepare it, bind the where values
      from position 1, reset. `prepareError(sql)` and `resetError` are the
      backend's error messages when those calls fail. */
  function BindStmt(q: Query, prepareError: string -> Option<string>, resetError: Option<string>): (r: Result<Prepared>)
    ensures r.Ok? <==> prepareError(SelectText(q)).None? && resetError.None?
    ensures r.Ok? ==> r.value.sql == SelectText(q)
    ensures r.Ok? ==> |r.value.binds| == |Conditions(q.where)|
    ensures r.Ok? ==> forall i :: 0 <= i < |r.value.binds| ==>
              r.value.binds[i] == Binding(i + 1, Conditions(q.where)[i].value)
    ensures prepareError(SelectText(q)).Some? ==>
              r == Err(PREPARE_FAILED + SelectText(q) + " " + prepareError(SelectText(q)).value)
    ensures prepareError(SelectText(q)).None? && resetError.Some? ==>
              r == Err(RESET_FAILED + SelectText(q) + " " + resetError.value)
  {
    var sql := SelectText(q);
    match prepareError(sql)
    case Some(msg) => Err(PREPARE_FAILED + sql + " " + msg)
    case None =>
      match resetError
      case Some(msg) => Err(RESET_FAILED + sql + " " + msg)
      case None => Ok(Prepared(sql, BindingsFrom(q.where, 1)))
  }

  /** No `?` in the text a where element writes: its field and its
      operator. Its value is bound, never written, so it may hold anything. */
  predicate WhereMarkFree(e: QueryElement) {
    MARK !in e.Field() && MARK !in e.op
  }

  /** No `?` in the text a tail element writes: its keyword and its value. */
  predicate ElementMarkFree(e: QueryElement) {
    MARK !in e.Field() && MARK !in e.op && MARK !in ValueText(e)
  }

  /** No `?` in the names, operators and tail values the caller supplies;
      the where clause's bound values are unconstrained. */
  predicate QueryMarkFree(q: Query) {
    && MARK !in q.table
    && (forall i :: 0 <= i < |q.fields| ==> MARK !in q.fields[i])
    && (forall i :: 0 <= i < |q.where| ==> WhereMarkFree(q.where[i]))
    && (forall i :: 0 <= i < |q.tail| ==> ElementMarkFree(q.tail[i]))
  }

  lemma SpaceMarks()
    ensures Marks(" ") == 0
  {
    MarksNone(" ");
  }

  lemma CondEndMarks()
    ensures Marks(" ?") == 1
  {
    assert " ?"[1..] == "?";
    MarkMarks();
  }

  lemma WhereOpenMarks()
    ensures Marks(" WHERE (") == 0
  {
    MarksNone(" WHERE (");
  }

  lemma CloseMarks()
    ensures Marks(")") == 0
  {
    MarksNone(")");
  }

  lemma SelectKeywordMarks()
    ensures Marks("SELECT ") == 0
  {
    MarksNone("SELECT ");
  }

  lemma FromMarks()
    ensures Marks(" FROM ") == 0
  {
    MarksNone(" FROM ");
  }

  lemma JoinTextMarks(op: string)
    requires MARK !in op
    ensures Marks(JoinText(op)) == 0
  {
    SpaceMarks();
    MarksNone(op);
    Marks3(" ", op, " ");
  }

  lemma CondTextMarks(e: QueryElement, comma: bool)
    requires WhereMarkFree(e)
    ensures Marks(CondText(e, comma)) == 1
  {
    var sep := if comma then ", " else "";
    SeparatorMarks(comma);
    MarksNone(e.Field());
    MarksNone(e.op);
    SpaceMarks();
    CondEndMarks();
    Marks5(sep, e.Field(), " ", e.op, " ?");
  }

  lemma TailPieceMarks(e: QueryElement)
    requires ElementMarkFree(e)
    ensures Marks(TailPiece(e)) == 0
  {
    SpaceMarks();
    MarksNone(e.op);
    MarksNone(ValueText(e));
    MarksAppend(" " + e.op + " ", ValueText(e));
    Marks3(" ", e.op, " ");
  }

  /** Every condition writes one `?`; joiners write none. */
  lemma {:induction false} WhereBodyMarks(w: seq<QueryElement>, comma: bool)
    requires forall i :: 0 <= i < |w| ==> WhereMarkFree(w[i])
    ensures Marks(WhereBody(w, comma)) == |Conditions(w)|
    decreases |w|
  {
    if w != [] {
      assert WhereMarkFree(w[0]);
      WhereBodyMarks(w[1..], !w[0].Join?);
      var rest := WhereBody(w[1..], !w[0].Join?);
      if w[0].Join? {
        JoinTextMarks(w[0].op);
        MarksAppend(JoinText(w[0].op), rest);
      } else {
        CondTextMarks(w[0], comma);
        MarksAppend(CondText(w[0], comma), rest);
      }
    }
  }

  lemma {:induction false} TailTextMarks(t: seq<QueryElement>)
    requires forall i :: 0 <= i < |t| ==> ElementMarkFree(t[i])
    ensures Marks(TailText(t)) == 0
    decreases |t|
  {
    if t != [] {
      assert ElementMarkFree(t[0]);
      TailTextMarks(t[1..]);
      TailPieceMarks(t[0]);
      MarksAppend(TailPiece(t[0]), TailText(t[1..]));
    }
  }

  lemma WhereSectionMarks(w: seq<QueryElement>)
    requires forall i :: 0 <= i < |w| ==> WhereMarkFree(w[i])
    ensures Marks(WhereSection(w)) == |Conditions(w)|
  {
    if w != [] {
      WhereBodyMarks(w, false);
      WhereOpenMarks();
      CloseMarks();
      Marks3(" WHERE (", WhereBody(w, false), ")");
    }
  }

  /** The SELECT text has exactly one `?` per non-joiner where element. */
  lemma SelectTextMarks(q: Query)
    requires QueryMarkFree(q)
    ensures Marks(SelectText(q)) == |Conditions(q.where)|
  {
    MarksCommaList(q.fields, false);
    MarksSumNone(q.fields);
    TailTextMarks(q.tail);
    WhereSectionMarks(q.where);
    SelectKeywordMarks();
    FromMarks();
    MarksNone(q.table);
    Marks5(" FROM ", q.table, WhereSection(q.where), TailText(q.tail), "");
    assert SelectRest(q) + "" == SelectRest(q);
    Marks3("SELECT ", CommaList(q.fields, false), SelectRest(q));
  }

  /** Placeholders and bindings line up: a prepared statement has as many
      `?` as bindings, and the bindings take positions 1..n in order. */
  lemma PlaceholdersMatchBindings(q: Query, prepareError: string -> Option<string>, resetError: Option<string>)
    requires QueryMarkFree(q)
    requires BindStmt(q, prepareError, resetError).Ok?
    ensures var p := BindStmt(q, prepareError, resetError).value;
            Marks(p.sql) == |p.binds| &&
            forall i :: 0 <= i < |p.binds| ==> p.binds[i].pos == i + 1
  {
    SelectTextMarks(q);
  }

  /** A `?` inside a bound value is not written into the text: a LIKE
      pattern containing `?` still yields exactly one placeholder. */
  lemma MarkInValueExample()
    ensures var q := Query("t", ["url"], [Cond("url", "LIKE", Text("a?b"))], []);
            QueryMarkFree(q) && Marks(SelectText(q)) == 1
  {
    var q := Query("t", ["url"], [Cond("url", "LIKE", Text("a?b"))], []);
    MarksNone("t");
    MarksNone("url");
    MarksNone("LIKE");
    SelectTextMarks(q);
    assert Conditions(q.where) == [q.where[0]] + Conditions(q.where[1..]);
  }
}
