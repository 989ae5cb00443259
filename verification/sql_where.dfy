/** Building where and tail clauses: the `_WHERE` family and a query's
    `append_where` / `append_clause`. */
module SqlWhere {
  import opened SqlTypes
  import opened Render
  import opened SeqLemmas

  /** One `field, op, value` triple of a `_WHERE` call. */
  datatype Term = Term(field: string, cmp: Comparison, value: BindValue)

  /** One further `join, field, op, value` group of a `_WHERE` call. */
  datatype Group = Group(join: Joiner, term: Term)

  function CondOf(t: Term): QueryElement {
    Cond(t.field, t.cmp.Op(), t.value)
  }

  /** The elements the groups contribute: a joiner then a condition for
      each group, in argument order. */
  function GroupElems(groups: seq<Group>): (r: seq<QueryElement>)
    ensures |r| == 2 * |groups|
    decreases |groups|
  {
    if groups == [] then []
    else [Join(groups[0].join.Op()), CondOf(groups[0].term)] + GroupElems(groups[1..])
  }

  /** Group `i` contributes elements `2i` and `2i + 1`. */
  lemma {:induction false} GroupElemsAt(groups: seq<Group>, i: nat)
    requires i < |groups|
    ensures GroupElems(groups)[2 * i] == Join(groups[i].join.Op())
    ensures GroupElems(groups)[2 * i + 1] == CondOf(groups[i].term)
    decreases i
  {
    if i > 0 {
      var pair := [Join(groups[0].join.Op()), CondOf(groups[0].term)];
      var rest := GroupElems(groups[1..]);
      GroupElemsAt(groups[1..], i - 1);
      assert groups[1..][i - 1] == groups[i];
      PairIndex(pair[0], pair[1], rest, 2 * i);
      PairIndex(pair[0], pair[1], rest, 2 * i + 1);
    }
  }

  lemma GroupElemsAll(groups: seq<Group>)
    ensures forall i :: 0 <= i < |groups| ==>
              GroupElems(groups)[2 * i] == Join(groups[i].join.Op())
              && GroupElems(groups)[2 * i + 1] == CondOf(groups[i].term)
  {
    forall i | 0 <= i < |groups|
      ensures GroupElems(groups)[2 * i] == Join(groups[i].join.Op())
      ensures GroupElems(groups)[2 * i + 1] == CondOf(groups[i].term)
    {
      GroupElemsAt(groups, i);
    }
  }

  /** `_WHERE(vec, join, field, op, value, args...)`: push the first group's
      joiner and condition onto `vec`, then recurse on the remaining
      arguments. */
  function PushGroups(vec: seq<QueryElement>, groups: seq<Group>): (r: seq<QueryElement>)
    ensures r == vec + GroupElems(groups)
    decreases |groups|
  {
    if groups == [] then
      AppendIndex(vec, []);
      vec
    else
      var pair := [Join(groups[0].join.Op()), CondOf(groups[0].term)];
      AppendAssoc(vec, pair, GroupElems(groups[1..]));
      PushGroups(vec + pair, groups[1..])
  }

  /** The elements the optional last triple contributes: `_WHERE(vec,
      field, op, value)` pushes a condition with no joiner before it. */
  function LastElems(last: Option<Term>): seq<QueryElement> {
    match last
    case None => []
    case Some(t) => [CondOf(t)]
  }

  /** `_WHERE(field, op, value, args...)`: the first condition, then one
      joiner and one condition per further group, then, when the arguments
      end in a bare `field, op, value` triple, one more condition with no
      joiner before it. */
  function Where(first: Term, groups: seq<Group>, last: Option<Term>): (r: seq<QueryElement>)
    ensures |r| == 1 + 2 * |groups| + |LastElems(last)|
    ensures r[0] == CondOf(first)
    ensures forall i :: 0 <= i < |groups| ==>
              r[2 * i + 1] == Join(groups[i].join.Op()) && r[2 * i + 2] == CondOf(groups[i].term)
    ensures last.Some? ==> r[|r| - 1] == CondOf(last.value)
  {
    AppendIndex([CondOf(first)], GroupElems(groups));
    GroupElemsAll(groups);
    var w := PushGroups([CondOf(first)], groups);
    AppendIndex(w, LastElems(last));
    w + LastElems(last)
  }

  /** A where clause whose conditions and joiners alternate, starting and
      ending with a condition (or the empty clause). */
  predicate Alternating(w: seq<QueryElement>) {
    && (w == [] || |w| % 2 == 1)
    && forall i :: 0 <= i < |w| ==> if i % 2 == 0 then w[i].Cond? else w[i].Join?
  }

  /** Within the groups' elements, joiners sit at even and conditions at
      odd positions. */
  lemma GroupElemsKind(groups: seq<Group>, j: nat)
    requires j < 2 * |groups|
    ensures if j % 2 == 0 then GroupElems(groups)[j].Join? else GroupElems(groups)[j].Cond?
  {
    var k := j / 2;
    GroupElemsAt(groups, k);
    if j % 2 == 0 {
      assert j == 2 * k;
    } else {
      assert j == 2 * k + 1;
    }
  }

  /** `_WHERE` builds a clause alternating condition, joiner, condition, ...
      exactly when every further term comes with a joiner; a trailing bare
      triple puts two conditions side by side. */
  lemma WhereAlternates(first: Term, groups: seq<Group>, last: Option<Term>)
    ensures Alternating(Where(first, groups, last)) <==> last.None?
  {
    var r := Where(first, groups, last);
    var g := GroupElems(groups);
    assert r == [CondOf(first)] + g + LastElems(last);
    if last.None? {
      assert r == [CondOf(first)] + g;
      forall i | 0 <= i < |r|
        ensures if i % 2 == 0 then r[i].Cond? else r[i].Join?
      {
        if i > 0 {
          assert r[i] == g[i - 1];
          GroupElemsKind(groups, i - 1);
        }
      }
    } else {
      assert |r| % 2 == 0 && r != [];
    }
  }

  /** `query::append_where(AND|OR, extra)`: a joiner goes between the old
      clause and the extra conditions only when the old clause is non-empty. */
  function AppendWhere(q: Query, join: Joiner, extra: seq<QueryElement>): (r: Query)
    ensures r.table == q.table && r.fields == q.fields && r.tail == q.tail
    ensures q.where == [] ==> r.where == extra
    ensures q.where != [] ==> r.where == q.where + [Join(join.Op())] + extra
  {
    if |q.where| > 0 then q.(where := q.where + [Join(join.Op())] + extra)
    else q.(where := q.where + extra)
  }

  /** Number of joiners in a clause. */
  function Joiners(w: seq<QueryElement>): nat
    decreases |w|
  {
    if w == [] then 0 else (if w[0].Join? then 1 else 0) + Joiners(w[1..])
  }

  lemma {:induction false} JoinersAppend(a: seq<QueryElement>, b: seq<QueryElement>)
    ensures Joiners(a + b) == Joiners(a) + Joiners(b)
    decreases |a|
  {
    if a == [] {
      assert a + b == b;
    } else {
      assert (a + b)[1..] == a[1..] + b;
      JoinersAppend(a[1..], b);
    }
  }

  /** `append_where` inserts exactly one joiner, and only when the old clause
      is non-empty. */
  lemma AppendWhereJoiners(q: Query, join: Joiner, extra: seq<QueryElement>)
    ensures Joiners(AppendWhere(q, join, extra).where)
            == Joiners(q.where) + Joiners(extra) + (if q.where == [] then 0 else 1)
  {
    if q.where == [] {
      assert q.where + extra == extra;
    } else {
      JoinersAppend(q.where, [Join(join.Op())]);
      JoinersAppend(q.where + [Join(join.Op())], extra);
    }
  }

  /** Appending a well-formed non-empty clause to a well-formed clause keeps
      conditions and joiners alternating. */
  lemma AppendWherePreservesAlternating(q: Query, join: Joiner, extra: seq<QueryElement>)
    requires Alternating(q.where) && Alternating(extra) && extra != []
    ensures Alternating(AppendWhere(q, join, extra).where)
  {
    var w := AppendWhere(q, join, extra).where;
    if q.where != [] {
      var n := |q.where|;
      assert w == q.where + [Join(join.Op())] + extra;
      forall i | 0 <= i < |w|
        ensures if i % 2 == 0 then w[i].Cond? else w[i].Join?
      {
        if i < n {
          assert w[i] == q.where[i];
        } else if i == n {
          assert w[i] == Join(join.Op());
        } else {
          assert w[i] == extra[i - n - 1];
          assert (i - n - 1) % 2 == i % 2;
        }
      }
    }
  }

  /** The source does not test the extra clause: appending an empty one to a
      non-empty clause leaves a trailing joiner with nothing after it. */
  lemma AppendEmptyLeavesTrailingJoiner(q: Query, join: Joiner)
    requires q.where != []
    ensures var w := AppendWhere(q, join, []).where;
            |w| == |q.where| + 1 && w[|w| - 1] == Join(join.Op()) && !Alternating(w)
  {
    var w := AppendWhere(q, join, []).where;
    assert w == q.where + [Join(join.Op())];
    var last := |w| - 1;
    assert w[last] == Join(join.Op());
    if |w| % 2 == 1 {
      assert last % 2 == 0 && !w[last].Cond?;
    }
  }

  /** `query::append_clause(LIMIT, n)`: one element at the end of the tail. */
  function AppendLimit(q: Query, n: int): (r: Query)
    ensures r.table == q.table && r.fields == q.fields && r.where == q.where
    ensures r.tail == q.tail + [LimitElem(n)]
  {
    q.(tail := q.tail + [LimitElem(n)])
  }

  /** `query::append_clause(ORDERBY, field)`: one element at the end of the tail. */
  function AppendOrderBy(q: Query, field: string): (r: Query)
    ensures r.table == q.table && r.fields == q.fields && r.where == q.where
    ensures r.tail == q.tail + [OrderByElem(field)]
  {
    q.(tail := q.tail + [OrderByElem(field)])
  }
}
