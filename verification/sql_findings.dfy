/** The tail loop of `query::bind_stmt` as the source writes it, next to the
    corrected tail text the rest of the model uses.

    As written, a tail element whose bind tag is `sql_int` prints its
    `num_value`, a `double`, with the stream's default formatting (six
    significant digits, `%g`); every other tail element prints its text
    value. Two consequences are modelled here:
    - a LIMIT of a million or more is written in scientific notation with
      its last digits rounded away;
    - the ORDER_BY element's constructor sets neither the tag nor the
      number, so the loop reads whatever tag the memory holds; if that
      happens to be `sql_int`, the field name is replaced by a number. */
module SqlFindings {
  import opened SqlTypes
  import opened Render
  import opened SeqLemmas
  import opened SqlStatement

  /** The source's `BindType` enumeration. */
  datatype BindTag = SqlBlob | SqlDouble | SqlInt | SqlInt64 | SqlNull | SqlText | SqlJoiningOp

  /** A tail element as the source stores it: keyword, tag, text value and
      number (an integral `double`, kept as an `int`). */
  datatype RawElement = RawElement(op: string, tag: BindTag, value: string, num: int)

  /** `query_element{LIMIT, n}`: tag `sql_int`, the number set, no text. */
  function RawLimit(n: int): RawElement {
    RawElement(LIMIT, SqlInt, "", n)
  }

  /** `query_element{ORDERBY, field}`: only the keyword and the text are set;
      `tag` and `num` stand for whatever the uninitialised members hold. */
  function RawOrderBy(field: string, tag: BindTag, num: int): RawElement {
    RawElement(ORDER_BY, tag, field, num)
  }

  /** One pass of the tail loop as written. */
  function TailPieceAsWritten(e: RawElement): string {
    " " + e.op + " " + (if e.tag == SqlInt then StreamedNumber(e.num) else e.value)
  }

  /** The as-written LIMIT text agrees with the corrected one exactly when
      the limit is below a million in magnitude. */
  lemma LimitAsWrittenAgrees(n: int)
    ensures TailPieceAsWritten(RawLimit(n)) == TailPiece(LimitElem(n)) <==> -1000000 < n < 1000000
  {
    var pre := " " + LIMIT + " ";
    assert TailPiece(LimitElem(n)) == pre + IntText(n);
    assert TailPieceAsWritten(RawLimit(n)) == pre + StreamedNumber(n);
    if -1000000 < n < 1000000 {
      StreamedSmallIsDecimal(n);
    } else {
      StreamedLargeHasExponent(n);
      IntTextHasNoExponent(n);
      PrefixCancel(pre, StreamedNumber(n), IntText(n));
    }
  }

  /** A limit of 1234567 is written as `1.23457e+06`, which denotes 1234570,
      where the corrected text is `1234567`. */
  lemma LimitAsWrittenCounterexample(n: int)
    requires n == 1234567
    ensures TailPieceAsWritten(RawLimit(n)) == " " + LIMIT + " " + "1.23457e+06"
    ensures TailPiece(LimitElem(n)) == " " + LIMIT + " " + "1234567"
  {
    LimitAsWrittenExample(n);
    LimitCorrectedExample(n);
  }

  lemma LimitAsWrittenExample(n: int)
    requires n == 1234567
    ensures TailPieceAsWritten(RawLimit(n)) == " " + LIMIT + " " + "1.23457e+06"
  {
    StreamedExample();
  }

  lemma LimitCorrectedExample(n: int)
    requires n == 1234567
    ensures TailPiece(LimitElem(n)) == " " + LIMIT + " " + "1234567"
  {
    DecimalExample();
  }

  /** Corrected: the limit is written in full decimal, and reading that text
      back gives the limit, whatever its size. */
  lemma LimitTextRoundTrip(n: int)
    ensures TailPiece(LimitElem(n)) == " LIMIT " + IntText(n)
    ensures IsIntText(IntText(n)) && ParseInt(IntText(n)) == n
  {
    assert " " + LIMIT + " " == " LIMIT ";
    IntTextRoundTrip(n);
  }

  /** As written, the ORDER_BY text depends on the uninitialised tag: any tag
      but `sql_int` writes the field; `sql_int` writes a number instead. */
  lemma OrderByAsWrittenDependsOnTag(field: string, tag: BindTag, num: int)
    ensures tag != SqlInt ==> TailPieceAsWritten(RawOrderBy(field, tag, num)) == TailPiece(OrderByElem(field))
    ensures tag == SqlInt ==> TailPieceAsWritten(RawOrderBy(field, tag, num))
                              == " " + ORDER_BY + " " + StreamedNumber(num)
  {
  }

  /** With the tag reading `sql_int` and the number zero, `ORDER_BY
      first_time` comes out as `ORDER_BY 0`: the field name is lost. */
  lemma OrderByAsWrittenCounterexample()
    ensures TailPieceAsWritten(RawOrderBy("first_time", SqlInt, 0)) == " " + ORDER_BY + " " + "0"
    ensures TailPiece(OrderByElem("first_time")) == " " + ORDER_BY + " " + "first_time"
  {
    assert StreamedNumber(0) == "0";
  }

  /** Corrected: the ORDER_BY element always writes its field. */
  lemma OrderByCorrected(field: string)
    ensures TailPiece(OrderByElem(field)) == " ORDER_BY " + field
  {
    assert " " + ORDER_BY + " " == " ORDER_BY ";
  }
}
