/** The grammar elements of the kissqlite3 statement builder: bind values,
    query elements, and the query, insert and update statements built from
    them. */
module SqlTypes {

  datatype Option<T> = None | Some(value: T)

  /** A constructor or a statement either succeeds or throws a runtime error
      carrying a message. */
  datatype Result<T> = Ok(value: T) | Err(msg: string)

  /** A value to bind to a placeholder. The constructor is the source's bind
      type tag; every number is kept as an integer (the source widens each to
      a double). */
  datatype BindValue =
    | Blob(bytes: string)
    | Text(text: string)
    | Int(n: int)
    | Int64(n: int)
    | Double(n: int)
    | Null

  /** One element of a where or tail clause.
      - `Cond`: a condition `field op ?` with the value bound to its `?`;
      - `Join`: a joining operator (`op_only` in the source), no placeholder;
      - `Tail`: a trailing clause such as `LIMIT 10` (`op_value_only`). */
  datatype QueryElement =
    | Cond(field: string, op: string, value: BindValue)
    | Join(op: string)
    | Tail(op: string, value: BindValue)
  {
    /** The field text; only conditions set it, the other elements leave it empty. */
    function Field(): string {
      if Cond? then field else ""
    }
  }

  /** The joining operators `AND` and `OR`. */
  datatype Joiner = AND | OR {
    function Op(): string {
      match this
      case AND => "AND"
      case OR => "OR"
    }
  }

  /** The comparison operators, with the exact text the source writes. */
  datatype Comparison = NEQ | EQ | LE | LT | GE | GT | LIKE {
    function Op(): string {
      match this
      case NEQ => "<>"
      case EQ => "=="
      case LE => "<="
      case LT => "<"
      case GE => ">="
      case GT => ">"
      case LIKE => "LIKE"
    }
  }

  /** The tail keywords; the ordering keyword is written with an underscore. */
  const ORDER_BY: string := "ORDER_BY"
  const LIMIT: string := "LIMIT"

  /** `query_element{LIMIT, n}`: an integer-typed tail element. */
  function LimitElem(n: int): QueryElement {
    Tail(LIMIT, Int(n))
  }

  /** `query_element{ORDERBY, field}`: the field travels as the element's text
      value (see the ORDER_BY finding in README for the bind type). */
  function OrderByElem(field: string): QueryElement {
    Tail(ORDER_BY, Text(field))
  }

  /** A SELECT: table, selected fields, where clause and tail clause. The
      database handle and the prepared statement are not modelled. */
  datatype Query = Query(table: string, fields: seq<string>,
                         where: seq<QueryElement>, tail: seq<QueryElement>)

  /** An INSERT: one term per field. */
  datatype Insert = Insert(table: string, fields: seq<string>, terms: seq<BindValue>)

  /** An UPDATE: one term per assigned field, plus an optional where clause. */
  datatype Update = Update(table: string, fields: seq<string>, terms: seq<BindValue>,
                           where: seq<QueryElement>)

  /** The message of the insert and update constructors' size check. */
  const FIELDS_MISMATCH: string := "Supplied fields not equal to supplied template"
}
