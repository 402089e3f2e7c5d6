/**
 * The message `Parse` reports when the script does not parse: the file, the parser's error
 * text and the position, then a hint built from the token found at the error position (a
 * statement keyword or an operator written without its opening parenthesis, a stray `else`,
 * or just the token itself).
 *
 * How the stream iterator turns the error position into a line and a column is not part of
 * this model: both are parameters, as is the test for operator names (the operator name
 * tables are not part of this model either).
 */
module SyntaxErrors {
  import opened Chars
  import opened Lexical

  /** A compile result of kind error: its text and the line and column the log shows. */
  datatype Report = Report(text: string, line: nat, column: nat)

  function Prefix(file: string, errorText: string): string {
    "Error: (" + file + ") " + errorText
  }

  /** `" (line, column)"` with both numbers in decimal. */
  function Position(line: nat, column: nat): string {
    " (" + DecimalString(line) + ", " + DecimalString(column) + ")"
  }

  /** Which test the token at the error position meets first. */
  datatype TokenKind = NoToken | StatementKeyword | OperatorName | StrayElse | OtherToken

  function KindOf(token: string, isOperator: string -> bool): (k: TokenKind)
    ensures k == NoToken <==> token == []
    ensures k == StrayElse ==> token == "else"
  {
    if token == [] then NoToken
    else if token in SCIStatementKeywords then StatementKeyword
    else if isOperator(token) then OperatorName
    else if token == "else" then StrayElse
    else OtherToken
  }

  /** `" ({what} must {verb} with a parenthesis: \"({token}\")."` */
  function ParenHint(what: string, verb: string, token: string): string {
    " (" + what + " must " + verb + " with a parenthesis: \"(" + token + "\")."
  }

  /** `": \"{rest}"` */
  function QuotedHint(rest: string): string {
    ": \"" + rest
  }

  function HintText(k: TokenKind, token: string): string {
    match k
    case NoToken => ""
    case StatementKeyword => ParenHint("Statements", "being", token)
    case OperatorName => ParenHint("Operator expressions", "begin", token)
    case StrayElse => QuotedHint("else\" cannot appear here.")
    case OtherToken => QuotedHint(token + "\"")
  }

  /** What the message says about the token at the error position. */
  function Hint(token: string, isOperator: string -> bool): string {
    HintText(KindOf(token, isOperator), token)
  }

  function Message(file: string, errorText: string, line: nat, column: nat, token: string,
                   isOperator: string -> bool): string
  {
    Prefix(file, errorText) + Position(line, column) + Hint(token, isOperator)
  }

  /**
   * The report for an error at offset `errorPos` of `input`, on the 0-based `line` at
   * `column`: the token runs from there to the next NUL, whitespace or parenthesis; the log
   * shows lines from 1.
   */
  function ErrorReport(file: string, errorText: string, input: string, errorPos: nat,
                       line: nat, column: nat, isOperator: string -> bool): Report
    requires errorPos <= |input|
  {
    var token := input[errorPos..TokenEnd(input, errorPos)];
    Report(Message(file, errorText, line, column, token, isOperator), line + 1, column)
  }

  /** The failure branch of `Parse`, building the message piece by piece. */
  method ReportSyntaxError(file: string, errorText: string, input: string, errorPos: nat,
                           line: nat, column: nat, isOperator: string -> bool)
    returns (r: Report)
    requires errorPos <= |input|
    ensures r == ErrorReport(file, errorText, input, errorPos, line, column, isOperator)
  {
    var strError := "Error: (" + file + ") ";
    strError := strError + errorText;
    strError := strError + (" (" + DecimalString(line) + ", " + DecimalString(column) + ")");
    var maybeKeyword, _ := ExtractSomeToken("", input, errorPos);
    assert maybeKeyword == input[errorPos..TokenEnd(input, errorPos)] by {
      EmptyAppend(input[errorPos..TokenEnd(input, errorPos)]);
    }
    var hint := HintFor(maybeKeyword, isOperator);
    strError := strError + hint;
    r := Report(strError, line + 1, column);
  }

  /** The tests on the extracted token, in the order the source makes them. */
  method HintFor(maybeKeyword: string, isOperator: string -> bool) returns (hint: string)
    ensures hint == Hint(maybeKeyword, isOperator)
  {
    hint := "";
    if maybeKeyword != [] {
      if maybeKeyword in SCIStatementKeywords {
        hint := ParenHint("Statements", "being", maybeKeyword);
      } else if isOperator(maybeKeyword) {
        hint := ParenHint("Operator expressions", "begin", maybeKeyword);
      } else if maybeKeyword == "else" {
        hint := QuotedHint("else\" cannot appear here.");
      } else {
        hint := QuotedHint(maybeKeyword + "\"");
      }
    }
  }

  // ---------------------------------------------------------------------------------------
  // Reading a message back

  lemma EmptyAppend(s: string)
    ensures "" + s == s
  {
  }

  lemma AppendAssoc(a: string, b: string, c: string)
    ensures a + b + c == a + (b + c)
  {
  }

  /** Equal strings with the same text around them have the same middle. */
  lemma SameMiddle(a: string, x: string, y: string, b: string)
    requires a + x + b == a + y + b
    ensures x == y
  {
    assert x == (a + x + b)[|a|..|a| + |x|];
    assert |x| == |y|;
    assert y == (a + y + b)[|a|..|a| + |y|];
  }

  lemma DecimalStringInjective(m: nat, n: nat)
    requires DecimalString(m) == DecimalString(n)
    ensures m == n
  {
    DecimalRoundTrip(m);
    DecimalRoundTrip(n);
  }

  predicate AllDigits(d: string) {
    forall i :: 0 <= i < |d| ==> IsDigit(d[i])
  }

  /** A run of digits followed by a character that is not a digit splits back at that character. */
  lemma SplitAfterDigits(d1: string, r1: string, d2: string, r2: string, stop: char)
    requires AllDigits(d1) && AllDigits(d2) && !IsDigit(stop)
    requires d1 + [stop] + r1 == d2 + [stop] + r2
    ensures d1 == d2 && r1 == r2
  {
    var s, t := d1 + [stop] + r1, d2 + [stop] + r2;
    assert s[|d1|] == stop && t[|d2|] == stop;
    if |d1| < |d2| {
      assert false;
    } else if |d2| < |d1| {
      assert false;
    }
    assert d1 == s[..|d1|] && d2 == t[..|d2|];
    assert r1 == s[|d1| + 1..] && r2 == t[|d2| + 1..];
  }

  /** What follows the prefix: the position, then the hint, read back. */
  lemma PositionHintInjective(l1: nat, c1: nat, h1: string, l2: nat, c2: nat, h2: string)
    requires Position(l1, c1) + h1 == Position(l2, c2) + h2
    ensures l1 == l2 && c1 == c2 && h1 == h2
  {
    var d1, e1 := DecimalString(l1), DecimalString(c1);
    var d2, e2 := DecimalString(l2), DecimalString(c2);
    var x1, x2 := Position(l1, c1) + h1, Position(l2, c2) + h2;
    assert x1 == " (" + (d1 + [','] + (" " + (e1 + [')'] + h1)));
    assert x2 == " (" + (d2 + [','] + (" " + (e2 + [')'] + h2)));
    assert x1[2..] == d1 + [','] + (" " + (e1 + [')'] + h1));
    assert x2[2..] == d2 + [','] + (" " + (e2 + [')'] + h2));
    SplitAfterDigits(d1, " " + (e1 + [')'] + h1), d2, " " + (e2 + [')'] + h2), ',');
    assert (" " + (e1 + [')'] + h1))[1..] == e1 + [')'] + h1;
    assert (" " + (e2 + [')'] + h2))[1..] == e2 + [')'] + h2;
    SplitAfterDigits(e1, h1, e2, h2, ')');
    DecimalStringInjective(l1, l2);
    DecimalStringInjective(c1, c2);
  }

  /** The third and the last character of a hint tell which test the token met first. */
  lemma HintMarks(k: TokenKind, t: string)
    requires k != NoToken
    ensures var h := HintText(k, t);
      && |h| >= 3
      && (k == StatementKeyword ==> h[2] == 'S' && h[|h| - 1] == '.')
      && (k == OperatorName ==> h[2] == 'O' && h[|h| - 1] == '.')
      && (k == StrayElse ==> h[2] == '"' && h[|h| - 1] == '.')
      && (k == OtherToken ==> h[2] == '"' && h[|h| - 1] == '"')
  {
  }

  /** Hints for different tokens differ. */
  lemma HintTextInjective(k1: TokenKind, t1: string, k2: TokenKind, t2: string)
    requires k1 != NoToken && k2 != NoToken
    requires (k1 == StrayElse ==> t1 == "else") && (k2 == StrayElse ==> t2 == "else")
    requires HintText(k1, t1) == HintText(k2, t2)
    ensures t1 == t2
  {
    if k1 != k2 {
      HintMarks(k1, t1);
      HintMarks(k2, t2);
      assert false;
    }
    match k1
    case StatementKeyword =>
      SameMiddle(" (" + "Statements" + " must " + "being" + " with a parenthesis: \"(", t1, t2, "\").");
    case OperatorName =>
      SameMiddle(" (" + "Operator expressions" + " must " + "begin" + " with a parenthesis: \"(", t1, t2, "\").");
    case StrayElse =>
    case OtherToken =>
      assert QuotedHint(t1 + "\"") == ": \"" + t1 + "\"";
      assert QuotedHint(t2 + "\"") == ": \"" + t2 + "\"";
      SameMiddle(": \"", t1, t2, "\"");
  }

  /** Different tokens get different hints, so a hint names its token. */
  lemma HintInjective(t1: string, t2: string, isOperator: string -> bool)
    requires Hint(t1, isOperator) == Hint(t2, isOperator)
    ensures t1 == t2
  {
    var k1, k2 := KindOf(t1, isOperator), KindOf(t2, isOperator);
    if k1 != NoToken {
      HintMarks(k1, t1);
    }
    if k2 != NoToken {
      HintMarks(k2, t2);
    }
    if k1 != NoToken && k2 != NoToken {
      HintTextInjective(k1, t1, k2, t2);
    }
  }

  /**
   * The message starts with the file and the parser's text, then the position, and whether
   * it goes on with a hint depends only on whether a token starts at the error position; the
   * log line is one more than the 0-based line.
   */
  lemma ErrorReportSpec(file: string, errorText: string, input: string, errorPos: nat,
                        line: nat, column: nat, isOperator: string -> bool)
    requires errorPos <= |input|
    ensures var r := ErrorReport(file, errorText, input, errorPos, line, column, isOperator);
      var head := Prefix(file, errorText) + Position(line, column);
      && r.line == line + 1 && r.column == column
      && |head| <= |r.text| && r.text[..|head|] == head
      && (r.text == head <==> !TokenChar(Peek(input, errorPos)))
      && (r.text[|r.text| - 1] == ')' <==> !TokenChar(Peek(input, errorPos)))
  {
    var r := ErrorReport(file, errorText, input, errorPos, line, column, isOperator);
    var head := Prefix(file, errorText) + Position(line, column);
    var e := TokenEnd(input, errorPos);
    var token := input[errorPos..e];
    var h := Hint(token, isOperator);
    assert r.text == head + h;
    assert r.text[..|head|] == head;
    TokenEndIff(input, errorPos, e);
    if TokenChar(Peek(input, errorPos)) {
      assert e != errorPos;
      assert r.text[|r.text| - 1] == h[|h| - 1];
    } else {
      assert token == [];
    }
  }

  /**
   * A message read back: with the file, the parser's text and the operator test known, the
   * message alone tells the line, the column and the token at the error position.
   */
  lemma MessageDetermines(file: string, errorText: string, isOperator: string -> bool,
                          l1: nat, c1: nat, t1: string, l2: nat, c2: nat, t2: string)
    requires Message(file, errorText, l1, c1, t1, isOperator) == Message(file, errorText, l2, c2, t2, isOperator)
    ensures l1 == l2 && c1 == c2 && t1 == t2
  {
    var p := Prefix(file, errorText);
    var h1, h2 := Hint(t1, isOperator), Hint(t2, isOperator);
    var x1, x2 := Position(l1, c1) + h1, Position(l2, c2) + h2;
    AppendAssoc(p, Position(l1, c1), h1);
    AppendAssoc(p, Position(l2, c2), h2);
    assert x1 == (p + x1)[|p|..] && x2 == (p + x2)[|p|..];
    PositionHintInjective(l1, c1, h1, l2, c2, h2);
    HintInjective(t1, t2, isOperator);
  }
}
