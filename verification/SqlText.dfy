/** The SQL text that the evidence report prints around identifiers, and a reader of that text
    under SQL's rule that a doubled quote inside a literal stands for one quote.
 */
module SqlText {
  import opened Text

  /** How one character of a value is printed. */
  function Printed(c: char): string { if c == '\'' then "''" else [c] }

  function Doubled(s: string): string {
    if s == "" then "" else Printed(s[0]) + Doubled(s[1..])
  }

  function SqlLiteral(value: string): string {
    "'" + Doubled(value) + "'"
  }

  function Rows(values: seq<string>): string
    requires values != []
  {
    "(" + SqlLiteral(values[0]) + ")" + if |values| == 1 then "" else ", " + Rows(values[1..])
  }

  const EMPTY_VALUES := "SELECT NULL::text WHERE false"

  function ValuesClause(values: seq<string>): string {
    if values == [] then EMPTY_VALUES else "VALUES " + Rows(values)
  }

  // ----- reading -----

  /** What was read, and the text behind it. */
  datatype Lexed<T> = NotLexed | Lexed(value: T, rest: string)

  function Prepend(c: char, l: Lexed<string>): Lexed<string> {
    match l
    case NotLexed => NotLexed
    case Lexed(value, rest) => Lexed([c] + value, rest)
  }

  /** Reads up to the quote that closes a literal; two quotes in a row are one quote of the value. */
  function LexBody(s: string): Lexed<string> {
    if s == "" then NotLexed
    else if s[0] != '\'' then Prepend(s[0], LexBody(s[1..]))
    else if |s| > 1 && s[1] == '\'' then Prepend('\'', LexBody(s[2..]))
    else Lexed("", s[1..])
  }

  function LexLiteral(s: string): Lexed<string> {
    if s != "" && s[0] == '\'' then LexBody(s[1..]) else NotLexed
  }

  function ParseRow(s: string): Lexed<string> {
    if s == "" || s[0] != '(' then NotLexed
    else
      match LexLiteral(s[1..])
      case NotLexed => NotLexed
      case Lexed(value, rest) =>
        if rest != "" && rest[0] == ')' then Lexed(value, rest[1..]) else NotLexed
  }

  lemma {:induction false} LexBodyShorter(s: string)
    ensures LexBody(s).Lexed? ==> |LexBody(s).rest| < |s|
    decreases |s|
  {
    if s != "" {
      LexBodyShorter(s[1..]);
      if |s| > 1 {
        LexBodyShorter(s[2..]);
      }
    }
  }

  predicate StartsWithComma(s: string) { |s| >= 2 && s[..2] == ", " }

  /** Rows are read as long as a comma follows. */
  function ParseRows(s: string): Lexed<seq<string>>
    decreases |s|
  {
    match ParseRow(s)
    case NotLexed => NotLexed
    case Lexed(value, rest) =>
      if !StartsWithComma(rest) then Lexed([value], rest)
      else
        LexBodyShorter(s[2..]);
        match ParseRows(rest[2..])
        case NotLexed => NotLexed
        case Lexed(values, rest') => Lexed([value] + values, rest')
  }

  function ParseValues(s: string): Lexed<seq<string>> {
    if |s| >= 7 && s[..7] == "VALUES " then ParseRows(s[7..]) else NotLexed
  }

  // ----- printing and reading are inverse -----

  predicate StartsWithQuote(s: string) { s != "" && s[0] == '\'' }

  lemma PrintedFirst(c: char, value: string, rest: string)
    ensures Doubled([c] + value) + "'" + rest == Printed(c) + (Doubled(value) + "'" + rest)
  {
    assert ([c] + value)[1..] == value;
    Associate(Printed(c), Doubled(value), "'");
    Associate(Printed(c), Doubled(value) + "'", rest);
  }

  lemma LexFirst(c: char, tail: string)
    ensures LexBody(Printed(c) + tail) == Prepend(c, LexBody(tail))
  {
    var s := Printed(c) + tail;
    if c == '\'' {
      assert s[2..] == tail;
    } else {
      assert s[1..] == tail;
    }
  }

  /** A printed literal is read back whole, whatever quotes, commas or parentheses it holds, in any
      surroundings that do not go on with a quote. */
  lemma {:induction false} LexDoubled(value: string, rest: string)
    requires !StartsWithQuote(rest)
    ensures LexBody(Doubled(value) + "'" + rest) == Lexed(value, rest)
  {
    if value == "" {
      assert Doubled(value) + "'" + rest == "'" + rest;
      assert ("'" + rest)[1..] == rest;
    } else {
      var tail := Doubled(value[1..]) + "'" + rest;
      LexDoubled(value[1..], rest);
      LexFirst(value[0], tail);
      PrintedFirst(value[0], value[1..], rest);
      assert [value[0]] + value[1..] == value;
    }
  }

  /** Conversely, whatever is read as a literal is how that value is printed. */
  lemma {:induction false} LexedIsPrinted(s: string)
    requires LexBody(s).Lexed?
    ensures s == Doubled(LexBody(s).value) + "'" + LexBody(s).rest && !StartsWithQuote(LexBody(s).rest)
    decreases |s|
  {
    if s[0] != '\'' {
      LexedIsPrinted(s[1..]);
      PrintedFirst(s[0], LexBody(s[1..]).value, LexBody(s[1..]).rest);
      assert s == Printed(s[0]) + s[1..];
    } else if |s| > 1 && s[1] == '\'' {
      LexedIsPrinted(s[2..]);
      PrintedFirst('\'', LexBody(s[2..]).value, LexBody(s[2..]).rest);
      assert s == Printed('\'') + s[2..];
    } else {
      assert s == "'" + s[1..];
    }
  }

  /** A value printed into a statement is exactly what the database reads there if and only if the
      text behind it does not begin with a quote. */
  lemma LiteralReadsBack(value: string, rest: string)
    ensures LexLiteral(SqlLiteral(value) + rest) == Lexed(value, rest) <==> !StartsWithQuote(rest)
  {
    var s := SqlLiteral(value) + rest;
    assert s[1..] == Doubled(value) + "'" + rest;
    if LexBody(s[1..]).Lexed? {
      LexedIsPrinted(s[1..]);
    }
    if !StartsWithQuote(rest) {
      LexDoubled(value, rest);
    }
  }

  lemma RowReadsBack(value: string, rest: string)
    ensures ParseRow("(" + SqlLiteral(value) + ")" + rest) == Lexed(value, rest)
  {
    var s := "(" + SqlLiteral(value) + ")" + rest;
    assert s[1..] == SqlLiteral(value) + (")" + rest);
    LiteralReadsBack(value, ")" + rest);
    assert (")" + rest)[1..] == rest;
  }

  lemma RowText(s: string, value: string, rest: string)
    requires |s| >= 2 && s[0] == '(' && s[1] == '\''
    requires s[2..] == Doubled(value) + "'" + (")" + rest)
    ensures s == "(" + SqlLiteral(value) + ")" + rest
  {
    var printed := "(" + SqlLiteral(value) + ")" + rest;
    assert printed[2..] == Doubled(value) + "'" + (")" + rest);
    assert s == ['(', '\''] + s[2..];
  }

  lemma ReadRowIsPrinted(s: string)
    ensures ParseRow(s).Lexed? ==> s == "(" + SqlLiteral(ParseRow(s).value) + ")" + ParseRow(s).rest
  {
    if ParseRow(s).Lexed? {
      LexedIsPrinted(s[2..]);
      assert s[1..][1..] == s[2..];
      var l := LexBody(s[2..]);
      assert l.rest == ")" + ParseRow(s).rest;
      RowText(s, l.value, ParseRow(s).rest);
    }
  }

  lemma RowsSplit(values: seq<string>, rest: string)
    requires |values| > 1
    ensures Rows(values) + rest == "(" + SqlLiteral(values[0]) + ")" + (", " + (Rows(values[1..]) + rest))
  {
    var row, more := "(" + SqlLiteral(values[0]) + ")", Rows(values[1..]);
    Associate(row, ", " + more, rest);
    Associate(", ", more, rest);
  }

  lemma Behind(head: string, tail: string)
    ensures (head + tail)[..|head|] == head && (head + tail)[|head|..] == tail
  {
  }

  lemma RowThenRows(value: string, more: string)
    requires ParseRows(more).Lexed?
    ensures ParseRows("(" + SqlLiteral(value) + ")" + (", " + more))
         == Lexed([value] + ParseRows(more).value, ParseRows(more).rest)
  {
    RowReadsBack(value, ", " + more);
    Behind(", ", more);
  }

  lemma {:induction false} RowsReadBack(values: seq<string>, rest: string)
    requires values != [] && !StartsWithComma(rest)
    ensures ParseRows(Rows(values) + rest) == Lexed(values, rest)
  {
    if |values| == 1 {
      RowReadsBack(values[0], rest);
      assert Rows(values) == "(" + SqlLiteral(values[0]) + ")";
      assert values == [values[0]];
    } else {
      RowsReadBack(values[1..], rest);
      RowsSplit(values, rest);
      RowThenRows(values[0], Rows(values[1..]) + rest);
      assert values == [values[0]] + values[1..];
    }
  }

  lemma RowsText(value: string, values: seq<string>, rest: string, rest': string)
    requires values != []
    requires StartsWithComma(rest) && rest[2..] == Rows(values) + rest'
    ensures Rows([value] + values) + rest' == "(" + SqlLiteral(value) + ")" + rest
  {
    assert ([value] + values)[1..] == values;
    assert rest == ", " + rest[2..];
  }

  lemma {:induction false} ReadRowsArePrinted(s: string)
    ensures var l := ParseRows(s);
      l.Lexed? ==> l.value != [] && s == Rows(l.value) + l.rest && !StartsWithComma(l.rest)
    decreases |s|
  {
    if ParseRows(s).Lexed? {
      ReadRowIsPrinted(s);
      var first := ParseRow(s);
      if !StartsWithComma(first.rest) {
        assert Rows([first.value]) == "(" + SqlLiteral(first.value) + ")";
      } else {
        var more := ParseRows(first.rest[2..]);
        ReadRowsArePrinted(first.rest[2..]);
        RowsText(first.value, more.value, first.rest, more.rest);
      }
    }
  }

  lemma ClauseIsRead(values: seq<string>, rest: string)
    requires values != [] && !StartsWithComma(rest)
    ensures ParseValues(ValuesClause(values) + rest) == Lexed(values, rest)
  {
    Associate("VALUES ", Rows(values), rest);
    Behind("VALUES ", Rows(values) + rest);
    RowsReadBack(values, rest);
  }

  lemma ReadClauseIsPrinted(text: string)
    requires ParseValues(text).Lexed?
    ensures var l := ParseValues(text);
      l.value != [] && text == ValuesClause(l.value) + l.rest && !StartsWithComma(l.rest)
  {
    ReadRowsArePrinted(text[7..]);
    var l := ParseRows(text[7..]);
    Associate("VALUES ", Rows(l.value), l.rest);
    assert text == text[..7] + text[7..];
  }

  /** In any surroundings, values and the text behind them are what is read if and only if the text
      is the printed clause of those values, and what stands behind is no further row: a quote, a
      comma or a parenthesis in a value can neither end the clause early nor extend it. */
  lemma ClauseReadsBackInPlace(text: string, values: seq<string>, rest: string)
    ensures ParseValues(text) == Lexed(values, rest)
       <==> values != [] && text == ValuesClause(values) + rest && !StartsWithComma(rest)
  {
    if values != [] && !StartsWithComma(rest) {
      ClauseIsRead(values, rest);
    }
    if ParseValues(text).Lexed? {
      ReadClauseIsPrinted(text);
    }
  }

  /** The printed clause is the one text that reads as its list: nothing in a value can end a
      literal early, add a row or merge two rows, and the empty list prints no row at all. */
  lemma ValuesClauseReadsBack(text: string, values: seq<string>)
    ensures ParseValues(text) == Lexed(values, "") <==> values != [] && text == ValuesClause(values)
  {
    ClauseReadsBackInPlace(text, values, "");
    assert values != [] ==> ValuesClause(values) + "" == ValuesClause(values);
  }

  /** The clause as the queries hold it, in parentheses that close behind it. */
  lemma ParenthesizedClauseReadsBack(values: seq<string>, rest: string)
    requires values != []
    ensures ParseValues(ValuesClause(values) + ")" + rest) == Lexed(values, ")" + rest)
  {
    var text := ValuesClause(values) + (")" + rest);
    assert (")" + rest)[0] == ')';
    ClauseReadsBackInPlace(text, values, ")" + rest);
    Associate(ValuesClause(values), ")", rest);
  }

  lemma DoubledStep(c: char, rest: string)
    ensures Doubled([c] + rest) == Printed(c) + Doubled(rest)
  {
    assert ([c] + rest)[1..] == rest;
  }

  lemma DoubledExample(x: string, y: string)
    requires x == ['a'] + "" && y == ['b'] + (['\''] + (['c'] + ""))
    ensures Doubled(x) == "a" && Doubled(y) == "b''c"
  {
    DoubledStep('a', "");
    DoubledStep('b', ['\''] + (['c'] + ""));
    DoubledStep('\'', ['c'] + "");
    DoubledStep('c', "");
  }

  lemma TwoRows(x: string, y: string)
    ensures ValuesClause([x, y]) == "VALUES " + ("('" + Doubled(x) + "')" + (", " + ("('" + Doubled(y) + "')")))
  {
    var row, row' := "(" + SqlLiteral(x) + ")", "(" + SqlLiteral(y) + ")";
    assert [x, y][1..] == [y];
    assert Rows([y]) == row' + "" == row';
    assert Rows([x, y]) == row + (", " + Rows([y]));
    assert row == "('" + Doubled(x) + "')" && row' == "('" + Doubled(y) + "')";
  }

  /** What is printed for two values, one with a quote. */
  lemma ClauseExample(x: string, y: string)
    requires x == "a" && y == "b'c"
    ensures ValuesClause([x, y]) == "VALUES ('a'), ('b''c')"
  {
    DoubledExample(x, y);
    TwoRows(x, y);
  }

  /** No value at all is printed as a query without rows. */
  lemma EmptyClause()
    ensures ValuesClause([]) == "SELECT NULL::text WHERE false"
  {
  }
}
