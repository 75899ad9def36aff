/** The value and clause parser of the database engine: literal tokens become typed
    values, and `column = value` clauses become single-entry constraints. */
module Parser {
  import opened Wrappers
  import opened Strings

  /** A typed value: integer, boolean or string. */
  datatype Value = IntVal(n: int) | BoolVal(b: bool) | StrVal(s: string)

  /** Why parsing failed. */
  datatype ParseError =
    | EmptyValue   // `value_str[0]` on an empty token raises IndexError
    | BadWhere     // a WHERE clause without exactly one `=`
    | BadSet       // a SET clause without exactly one `=`

  /** A parsed clause: column name to required (or new) value. */
  type Clause = map<string, Value>

  function DigitValue(ch: char): nat
    requires IsDigit(ch)
  {
    ch as int - '0' as int
  }

  function DigitChar(d: nat): (ch: char)
    requires d < 10
    ensures IsDigit(ch) && DigitValue(ch) == d
  {
    ('0' as int + d) as char
  }

  /** `int(s)` on a string of decimal digits (leading zeros allowed): zero exactly
      when every digit is `0`. */
  function DigitsValue(s: string): (r: nat)
    requires forall i :: 0 <= i < |s| ==> IsDigit(s[i])
    ensures r == 0 <==> forall i :: 0 <= i < |s| ==> s[i] == '0'
  {
    if s == [] then 0 else DigitsValue(s[..|s| - 1]) * 10 + DigitValue(s[|s| - 1])
  }

  /** `str(n)` for a natural number: its shortest decimal text. */
  function NatDecimal(n: nat): (s: string)
    ensures IsDigits(s)
  {
    if n < 10 then [DigitChar(n)] else NatDecimal(n / 10) + [DigitChar(n % 10)]
  }

  /** `str(n)` for any integer. */
  function IntDecimal(n: int): string
  {
    if n < 0 then "-" + NatDecimal(-n) else NatDecimal(n)
  }

  /** Reading back the decimal text of a natural number gives the number. */
  lemma {:induction false} NatDecimalRoundTrip(n: nat)
    ensures DigitsValue(NatDecimal(n)) == n
  {
    var s := NatDecimal(n);
    if n >= 10 {
      NatDecimalRoundTrip(n / 10);
      assert s[..|s| - 1] == NatDecimal(n / 10);
    }
  }

  /** Digit text without a leading zero is the decimal text of its value. */
  lemma {:induction false} DigitsDecimalRoundTrip(s: string)
    requires IsDigits(s) && (|s| == 1 || s[0] != '0')
    ensures NatDecimal(DigitsValue(s)) == s
  {
    var p := s[..|s| - 1];
    var d := DigitValue(s[|s| - 1]);
    var n := DigitsValue(s);
    if |s| == 1 {
      assert p == [];
      assert DigitChar(d) == s[0];
    } else {
      assert p[0] == s[0];
      DigitsDecimalRoundTrip(p);
      var a := DigitsValue(p);
      assert a != 0 by { assert p[0] != '0'; }
      assert n / 10 == a && n % 10 == d;
      assert DigitChar(d) == s[|s| - 1];
      assert s == p + [s[|s| - 1]];
    }
  }

  /** True of a token `parse_value` treats as a quoted string: the lone `"`, or
      some text between two quotes. */
  predicate IsQuoted(tok: string)
    ensures IsQuoted(tok) ==> tok == "\"" || (|tok| >= 2 && tok == "\"" + tok[1..|tok| - 1] + "\"")
  {
    |tok| >= 1 && tok[0] == '"' && tok[|tok| - 1] == '"'
  }

  /** `parse_value`: quoted text is a string taken verbatim; then `true`/`false`
      in any case is a boolean; then all digits, or `-` and digits, is an integer;
      anything else is the token itself as a string. The empty token fails, at the
      index into its first character. */
  function ParseValue(tok: string): (r: Result<Value, ParseError>)
    ensures r.Err? <==> tok == []
    ensures r.Err? ==> r.error == EmptyValue
  {
    if IsQuoted(tok) then Ok(StrVal(if |tok| >= 2 then tok[1..|tok| - 1] else []))
    else if Lower(tok) == "true" || Lower(tok) == "false" then Ok(BoolVal(Lower(tok) == "true"))
    else if IsDigits(tok) then Ok(IntVal(DigitsValue(tok)))
    else if tok == [] then Err(EmptyValue)
    else if tok[0] == '-' && IsDigits(tok[1..]) then Ok(IntVal(-(DigitsValue(tok[1..]) as int)))
    else Ok(StrVal(tok))
  }

  /** The token a user types for a value; `parse_value` reads it back. */
  function Literal(v: Value): string
  {
    match v
    case IntVal(n) => IntDecimal(n)
    case BoolVal(b) => if b then "true" else "false"
    case StrVal(s) => "\"" + s + "\""
  }

  /** A quoted token yields its inner text verbatim, with no escape processing. */
  lemma QuotedIsVerbatim(s: string)
    ensures ParseValue("\"" + s + "\"") == Ok(StrVal(s))
  {
    var tok := "\"" + s + "\"";
    assert tok[1..|tok| - 1] == s;
  }

  /** A token whose first character is not a letter is never read as a boolean. */
  lemma NotBoolWord(tok: string)
    requires tok != [] && !IsLetter(tok[0])
    ensures Lower(tok) != "true" && Lower(tok) != "false"
  {
    assert Lower(tok)[0] == tok[0];
  }

  /** An unquoted token spelling `true` or `false` in any mix of cases is a boolean. */
  lemma BoolIgnoresCase(tok: string)
    requires !IsQuoted(tok)
    requires Lower(tok) == "true" || Lower(tok) == "false"
    ensures ParseValue(tok) == Ok(BoolVal(Lower(tok) == "true"))
  {
  }

  /** An all-digit token is the integer it spells. */
  lemma DigitsAreInt(tok: string)
    requires IsDigits(tok)
    ensures ParseValue(tok) == Ok(IntVal(DigitsValue(tok)))
  {
    NotBoolWord(tok);
  }

  /** `-` followed by digits is the negated integer. */
  lemma NegativeDigitsAreInt(tok: string)
    requires |tok| >= 2 && tok[0] == '-' && IsDigits(tok[1..])
    ensures ParseValue(tok) == Ok(IntVal(-(DigitsValue(tok[1..]) as int)))
  {
    NotBoolWord(tok);
    assert !IsDigit(tok[0]);
  }

  /** Any integer's decimal text parses back to that integer. */
  lemma IntRoundTrip(n: int)
    ensures ParseValue(IntDecimal(n)) == Ok(IntVal(n))
  {
    var tok := IntDecimal(n);
    if n < 0 {
      NatDecimalRoundTrip(-n);
      assert tok[1..] == NatDecimal(-n);
      NegativeDigitsAreInt(tok);
    } else {
      NatDecimalRoundTrip(n);
      DigitsAreInt(tok);
    }
  }

  /** A non-empty token that is not quoted, not a boolean word and not an integer
      comes back unchanged as a string. */
  lemma OtherTokensVerbatim(tok: string)
    requires tok != [] && !IsQuoted(tok)
    requires Lower(tok) != "true" && Lower(tok) != "false"
    requires !IsDigits(tok) && !(tok[0] == '-' && IsDigits(tok[1..]))
    ensures ParseValue(tok) == Ok(StrVal(tok))
  {
  }

  /** Numeric-looking tokens that fail the digit test, and a lone `-`, stay strings;
      a quoted word is a string even when it spells a boolean. */
  lemma FallThroughExamples()
    ensures ParseValue("12.5") == Ok(StrVal("12.5"))
    ensures ParseValue("+5") == Ok(StrVal("+5"))
    ensures ParseValue("-") == Ok(StrVal("-"))
    ensures ParseValue("TrUe") == Ok(BoolVal(true))
    ensures ParseValue("\"true\"") == Ok(StrVal("true"))
  {
    NotBoolWord("12.5");
    NotBoolWord("+5");
    NotBoolWord("-");
    assert !IsDigit('.') && !IsDigit('+') && !IsDigit('-');
    assert Lower("TrUe") == "true";
    QuotedIsVerbatim("true");
    assert "\"" + "true" + "\"" == "\"true\"";
  }

  /** `parse_value` inverts `Literal` on every value. */
  lemma LiteralRoundTrip(v: Value)
    ensures ParseValue(Literal(v)) == Ok(v)
  {
    match v
    case IntVal(n) => IntRoundTrip(n);
    case BoolVal(b) =>
      assert Lower("true") == "true";
      assert Lower("false") == "false";
    case StrVal(s) => QuotedIsVerbatim(s);
  }

  /** The shared body of `parse_where` and `parse_set`: split on `=`, insist on two
      pieces, strip both, parse the right-hand one. */
  function ParseClause(s: string, malformed: ParseError): (r: Result<Clause, ParseError>)
    ensures Count(s, '=') != 1 ==> r == Err(malformed)
    ensures r.Ok? ==> |r.value| == 1
  {
    var parts := Split(s, '=');
    if |parts| != 2 then Err(malformed)
    else
      match ParseValue(Strip(parts[1]))
      case Err(e) => Err(e)
      case Ok(v) => Ok(map[Strip(parts[0]) := v])
  }

  /** `parse_where`: the empty string means "no filter". */
  function ParseWhere(s: string): (r: Result<Option<Clause>, ParseError>)
    ensures r == Ok(None) <==> s == []
    ensures s != [] && Count(s, '=') != 1 ==> r == Err(BadWhere)
  {
    if s == [] then Ok(None)
    else
      match ParseClause(s, BadWhere)
      case Err(e) => Err(e)
      case Ok(c) => Ok(Some(c))
  }

  /** `parse_set`: like `parse_where` but with no empty-string short cut. */
  function ParseSet(s: string): (r: Result<Clause, ParseError>)
    ensures Count(s, '=') != 1 ==> r == Err(BadSet)
  {
    ParseClause(s, BadSet)
  }

  /** With exactly one `=`, a clause is the stripped left side mapped to the parsed
      stripped right side; a blank right side fails as an empty value. */
  lemma ClauseAtSingleEquals(lhs: string, rhs: string, malformed: ParseError)
    requires '=' !in lhs && '=' !in rhs
    ensures Count(lhs + "=" + rhs, '=') == 1
    ensures Strip(rhs) == [] ==> ParseClause(lhs + "=" + rhs, malformed) == Err(EmptyValue)
    ensures Strip(rhs) != [] ==>
      ParseClause(lhs + "=" + rhs, malformed) == Ok(map[Strip(lhs) := ParseValue(Strip(rhs)).value])
  {
    assert Join([lhs, rhs], "=") == lhs + "=" + rhs;
    SplitJoin([lhs, rhs], '=');
  }

  /** Every clause with exactly one `=` has that shape. */
  lemma SingleEqualsSplits(s: string)
    requires Count(s, '=') == 1
    ensures var p := Split(s, '='); s == p[0] + "=" + p[1] && '=' !in p[0] && '=' !in p[1]
  {
    JoinSplit(s, '=');
    var p := Split(s, '=');
    assert Join(p, "=") == p[0] + "=" + p[1];
  }

  /** `parse_set("")` fails: there is no empty short cut. */
  lemma SetRejectsEmpty()
    ensures ParseSet("") == Err(BadSet)
  {
  }

  /** `=` inside quotes still counts as a separator, so such a clause is malformed. */
  lemma QuotedEqualsIsMalformed()
    ensures ParseWhere("name = \"a=b\"") == Err(BadWhere)
  {
    assert Count("name = \"a=b\"", '=') == 2;
  }

  /** A WHERE clause written as `col = literal` reads back as the one-entry filter. */
  lemma WhereRoundTrip(col: string, v: Value)
    requires IsIdentifier(col)
    requires '=' !in Literal(v)
    ensures ParseWhere(col + " = " + Literal(v)) == Ok(Some(map[col := v]))
  {
    LiteralTight(v);
    LiteralRoundTrip(v);
    PaddedClause(col, Literal(v), BadWhere);
  }

  /** `col = tok` with one space around `=` parses as `{col: parse_value(tok)}`. */
  lemma PaddedClause(col: string, tok: string, malformed: ParseError)
    requires IsIdentifier(col)
    requires tok != [] && Tight(tok) && '=' !in tok
    ensures ParseClause(col + " = " + tok, malformed) == Ok(map[col := ParseValue(tok).value])
  {
    PaddedLeft(col);
    PaddedRight(tok);
    assert col + " = " + tok == (col + " ") + "=" + (" " + tok);
    ClauseAtSingleEquals(col + " ", " " + tok, malformed);
  }

  /** The left side of `col = tok`: no `=`, and `strip` gives back the column. */
  lemma PaddedLeft(col: string)
    requires IsIdentifier(col)
    ensures '=' !in col + " " && Strip(col + " ") == col
  {
    StripPadded(col);
  }

  /** The right side of `col = tok`: no `=`, and `strip` gives back the token. */
  lemma PaddedRight(tok: string)
    requires Tight(tok) && '=' !in tok
    ensures '=' !in " " + tok && Strip(" " + tok) == tok
  {
    StripPadded(tok);
  }

  /** A literal is non-empty and has no whitespace at either end. */
  lemma LiteralTight(v: Value)
    ensures Literal(v) != [] && Tight(Literal(v))
  {
    match v
    case IntVal(n) =>
      var d := NatDecimal(if n < 0 then -n else n);
      assert IsDigit(d[0]) && IsDigit(d[|d| - 1]);
      if n < 0 {
        assert Literal(v) == "-" + d;
      }
    case BoolVal(b) =>
    case StrVal(s) =>
  }
}
