/**
 * Field-list normalisation (parseFields): a comma-separated column list is
 * rewritten so that every column is a backtick-quoted identifier, unless the
 * text looks like an expression (it contains '(') or is already quoted (it
 * starts with a backtick).
 */
module Fields {

  import opened Text

  /** A column name in backticks. */
  function Quote(name: string): string {
    "`" + name + "`"
  }

  /** Every piece trimmed and quoted. */
  function QuoteAll(pieces: seq<string>): seq<string> {
    seq(|pieces|, i requires 0 <= i < |pieces| => Quote(TrimSpace(pieces[i])))
  }

  /**
   * The projection parseFields returns. Go indexes fields[0], so the empty
   * text panics: callers must pass a non-empty list.
   */
  function QuotedFields(fields: string): (r: string)
    requires fields != ""
    ensures r != ""
    ensures '(' !in fields ==> r[0] == '`' && '(' !in r
  {
    if '(' in fields || fields[0] == '`' then fields
    else
      var pieces := Split(fields, ',');
      var quoted := QuoteAll(pieces);
      forall i | 0 <= i < |quoted| ensures '(' !in quoted[i] {
        assert quoted[i] == "`" + TrimSpace(pieces[i]) + "`";
      }
      JoinAvoids(quoted, ',', '(');
      assert quoted[0][0] == '`';
      Join(quoted, ',')
  }

  /** parseFields as Data.go writes it: a rewrite loop over the split pieces. */
  method ParseFields(fields: string) returns (r: string)
    requires fields != ""
    ensures r == QuotedFields(fields)
  {
    if '(' in fields {
      return fields;
    }
    var pieces := Split(fields, ',');
    var fieldArr := pieces;
    var i := 0;
    while i < |fieldArr|
      invariant 0 <= i <= |fieldArr| == |pieces|
      invariant forall j :: 0 <= j < i ==>
                  fieldArr[j] == if fields[0] != '`' then Quote(TrimSpace(pieces[j])) else pieces[j]
      invariant forall j :: i <= j < |pieces| ==> fieldArr[j] == pieces[j]
    {
      var field := TrimSpace(fieldArr[i]);
      if fields[0] != '`' {
        fieldArr := fieldArr[i := Quote(field)];
      }
      i := i + 1;
    }
    if fields[0] == '`' {
      assert fieldArr == pieces;
      JoinSplit(fields, ',');
    } else {
      assert fieldArr == QuoteAll(pieces);
    }
    r := Join(fieldArr, ',');
  }

  /** Text containing '(' or starting with a backtick passes through unchanged. */
  lemma PassThrough(fields: string)
    requires fields != ""
    requires '(' in fields || fields[0] == '`'
    ensures QuotedFields(fields) == fields
  {
  }

  /**
   * Otherwise the output has exactly as many comma pieces as the input, and
   * piece i of the output is piece i of the input, trimmed, in backticks.
   */
  lemma QuotedPieces(fields: string)
    requires fields != "" && '(' !in fields && fields[0] != '`'
    ensures |Split(QuotedFields(fields), ',')| == |Split(fields, ',')|
    ensures forall i :: 0 <= i < |Split(fields, ',')| ==>
              Split(QuotedFields(fields), ',')[i] == "`" + TrimSpace(Split(fields, ',')[i]) + "`"
  {
    var pieces := Split(fields, ',');
    var quoted := QuoteAll(pieces);
    forall i | 0 <= i < |quoted| ensures ',' !in quoted[i] {
      assert quoted[i] == "`" + TrimSpace(pieces[i]) + "`";
    }
    SplitJoin(quoted, ',');
  }

  /** Normalising twice is normalising once. */
  lemma Idempotent(fields: string)
    requires fields != ""
    ensures QuotedFields(QuotedFields(fields)) == QuotedFields(fields)
  {
  }
}
