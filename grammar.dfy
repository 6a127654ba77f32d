/** The fixed grammar of the command language: the rule names, the kind of
    each rule (terminal, ordered choice or sequence), the sub-rules wired in
    once at start-up, the pattern each terminal token must match in full
    (ignoring ASCII case), and the reserved words. */
module Grammar {
  import opened Base

  /** The terminal rules: one token each. */
  datatype TermRule =
    // names and literals
    | Attribute | DbName | TableName | IntegerLiteral | FloatLiteral | StringLiteral | NullLiteral
    // symbols
    | AsteriskLiteral | Comparator | SemicolonLiteral | CommaLiteral | EqualsLiteral
    | OpParenLiteral | ClParenLiteral | SpaceLiteral
    // keywords
    | AlterationType | BooleanLiteral | BoolOperator | UseLiteral | CreateLiteral | DbLiteral
    | TableLiteral | DropLiteral | AlterLiteral | InsertLiteral | IntoLiteral | ValuesLiteral
    | SelectLiteral | FromLiteral | WhereLiteral | UpdateLiteral | SetLiteral | DeleteLiteral
    | JoinLiteral | AndLiteral | OnLiteral

  /** The ordered-choice rules. */
  datatype OrRule =
    | CommandType | Create | CreateTable | Drop | Select | NameValueList | ValueList | Value
    | WildAttrList | AttrList | Condition

  /** The sequence rules. */
  datatype SeqRule =
    | Command | Use | CreateDb | CrTableNoAttr | CrTableAttr | DropDb | DropTable | Alter
    | Insert | SelectNoCond | SelectCond | Update | Delete | Join | NameValueRecur
    | NameValuePair | ValueListRecur | AttrListRecur | CompWithBracket | CompWithSimp | BracketCond
    | SimpleCond

  /** A rule name, grouped by the type of its rule. */
  datatype RuleName = T(term: TermRule) | O(choice: OrRule) | S(sequence: SeqRule)

  datatype RuleType = Term | Or | Seq

  function Type(r: RuleName): RuleType
  {
    match r
    case T(_) => Term
    case O(_) => Or
    case S(_) => Seq
  }

  /** The sub-rules of each rule, in the order they are tried or matched.
      CONDITION has none: it is parsed by a look-ahead of its own. */
  function SubRules(r: RuleName): seq<RuleName>
  {
    match r
    case T(_) => []
    case O(o) => Alternatives(o)
    case S(s) => Parts(s)
  }

  function Alternatives(o: OrRule): seq<RuleName>
  {
    match o
    case CommandType => [S(Use), O(Create), O(Drop), S(Alter), S(Insert), O(Select), S(Update), S(Delete), S(Join)]
    case Create => [S(CreateDb), O(CreateTable)]
    case CreateTable => [S(CrTableAttr), S(CrTableNoAttr)]
    case Drop => [S(DropDb), S(DropTable)]
    case Select => [S(SelectCond), S(SelectNoCond)]
    case NameValueList => [S(NameValueRecur), S(NameValuePair)]
    case ValueList => [S(ValueListRecur), O(Value)]
    case Value => [T(StringLiteral), T(BooleanLiteral), T(FloatLiteral), T(IntegerLiteral), T(NullLiteral)]
    case WildAttrList => [O(AttrList), T(AsteriskLiteral)]
    case AttrList => [S(AttrListRecur), T(Attribute)]
    case Condition => []
  }

  function Parts(s: SeqRule): seq<RuleName>
  {
    match s
    case Command => [O(CommandType), T(SemicolonLiteral)]
    case Use => [T(UseLiteral), T(DbName)]
    case CreateDb => [T(CreateLiteral), T(DbLiteral), T(DbName)]
    case CrTableNoAttr => [T(CreateLiteral), T(TableLiteral), T(TableName)]
    case CrTableAttr => [T(CreateLiteral), T(TableLiteral), T(TableName), T(OpParenLiteral), O(AttrList), T(ClParenLiteral)]
    case DropDb => [T(DropLiteral), T(DbLiteral), T(DbName)]
    case DropTable => [T(DropLiteral), T(TableLiteral), T(TableName)]
    case Alter => [T(AlterLiteral), T(TableLiteral), T(TableName), T(AlterationType), T(Attribute)]
    case Insert => [T(InsertLiteral), T(IntoLiteral), T(TableName), T(ValuesLiteral), T(OpParenLiteral), O(ValueList), T(ClParenLiteral)]
    case SelectNoCond => [T(SelectLiteral), O(WildAttrList), T(FromLiteral), T(TableName)]
    case SelectCond => [T(SelectLiteral), O(WildAttrList), T(FromLiteral), T(TableName), T(WhereLiteral), O(Condition)]
    case Update => [T(UpdateLiteral), T(TableName), T(SetLiteral), O(NameValueList), T(WhereLiteral), O(Condition)]
    case Delete => [T(DeleteLiteral), T(FromLiteral), T(TableName), T(WhereLiteral), O(Condition)]
    case Join => [T(JoinLiteral), T(TableName), T(AndLiteral), T(TableName), T(OnLiteral), T(Attribute), T(AndLiteral), T(Attribute)]
    case NameValueRecur => [S(NameValuePair), T(CommaLiteral), O(NameValueList)]
    case NameValuePair => [T(Attribute), T(EqualsLiteral), O(Value)]
    case ValueListRecur => [O(Value), T(CommaLiteral), O(ValueList)]
    case AttrListRecur => [T(Attribute), T(CommaLiteral), O(AttrList)]
    case CompWithBracket => [S(BracketCond), T(BoolOperator), O(Condition)]
    case CompWithSimp => [S(SimpleCond), T(BoolOperator), O(Condition)]
    case BracketCond => [T(OpParenLiteral), O(Condition), T(ClParenLiteral)]
    case SimpleCond => [T(Attribute), T(Comparator), O(Value)]
  }

  /** A measure under which every rule reached without consuming a token
      (an alternative of a choice, the first part of a sequence, a shape of a
      condition) is smaller. */
  function Rank(r: RuleName): nat
  {
    match r
    case T(_) => 0
    case O(o) => ChoiceRank(o)
    case S(s) => SequenceRank(s)
  }

  function ChoiceRank(o: OrRule): nat
  {
    match o
    case CommandType => 4
    case Create | ValueList | NameValueList | WildAttrList | Condition => 3
    case CreateTable | Drop | Select | AttrList => 2
    case Value => 1
  }

  function SequenceRank(s: SeqRule): nat
  {
    match s
    case Command => 5
    case ValueListRecur | NameValueRecur | CompWithBracket | CompWithSimp => 2
    case _ => 1
  }

  /** Every alternative of a choice ranks below the choice. */
  lemma {:induction false} OrRank(r: RuleName, i: nat)
    requires Type(r) == Or && i < |SubRules(r)|
    ensures Rank(SubRules(r)[i]) < Rank(r)
  {
  }

  /** A sequence has parts, and its first part ranks below it. */
  lemma {:induction false} SeqRank(r: RuleName)
    requires Type(r) == Seq
    ensures |SubRules(r)| > 0 && Rank(SubRules(r)[0]) < Rank(r)
  {
  }

  // ---------------------------------------------------------------------
  // Terminal patterns

  /** `t` is `word` whatever the case of its letters; checked one character
      at a time. */
  predicate IsKeyword(t: string, word: string)
    decreases |t|
  {
    if t == [] then word == []
    else word != [] && ToUpperChar(t[0]) == word[0] && IsKeyword(t[1..], word[1..])
  }

  /** A keyword match is equality of the upper-cased text with the word. */
  lemma {:induction false} KeywordIsUpper(t: string, word: string)
    ensures IsKeyword(t, word) <==> Upper(t) == word
    decreases |t|
  {
    if t != [] && word != [] {
      KeywordIsUpper(t[1..], word[1..]);
      assert Upper(t) == [ToUpperChar(t[0])] + Upper(t[1..]);
      assert word == [word[0]] + word[1..];
    }
  }

  /** `t` without its optional leading sign. */
  function Unsigned(t: string): (body: string)
    ensures body == t || (|t| > 0 && body == t[1..] && (t[0] == '+' || t[0] == '-'))
  {
    if |t| > 0 && (t[0] == '+' || t[0] == '-') then t[1..] else t
  }

  /** `[0-9]*`, checked one character at a time. */
  predicate Digits(s: string)
    decreases |s|
  {
    s == [] || (IsDigit(s[0]) && Digits(s[1..]))
  }

  /** `[a-zA-Z0-9]*`, checked one character at a time. */
  predicate LettersOrDigits(s: string)
    decreases |s|
  {
    s == [] || (IsLetterOrDigit(s[0]) && LettersOrDigits(s[1..]))
  }

  /** `[+-]?[0-9]+` */
  predicate IsIntegerText(t: string)
  {
    Unsigned(t) != "" && Digits(Unsigned(t))
  }

  /** `[0-9]+\.[0-9]+`: a digit, then either the point and at least one
      digit, or again a float body. */
  predicate FloatBody(s: string)
    decreases |s|
  {
    && |s| >= 3 && IsDigit(s[0])
    && ((s[1] == '.' && Digits(s[2..])) || FloatBody(s[1..]))
  }

  /** `[+-]?[0-9]+\.[0-9]+` */
  predicate IsFloatText(t: string)
  {
    FloatBody(Unsigned(t))
  }

  /** The characters allowed between the quotes of a string literal: the
      listed symbols, the space, the digits and the range `A-z`, which also
      holds `[`, `\`, `]`, `^`, `_` and the backquote. */
  predicate StringLitChar(c: char)
  {
    || c == '!' || c == '#' || c == '$' || c == '%' || c == '&' || c == '(' || c == ')'
    || c == '*' || c == '+' || c == ',' || c == '-' || c == '.' || c == '/' || c == ':'
    || c == ';' || c == '>' || c == '=' || c == '<' || c == '?' || c == '@' || c == '['
    || c == '\\' || c == ']' || c == '^' || c == '_' || c == '`' || c == '{' || c == '}'
    || c == '~' || 'a' <= c <= 'z' || 'A' <= c <= 'z' || IsDigit(c) || c == ' '
  }

  /** The characters between the quotes, checked one at a time. */
  predicate LitChars(s: string)
    decreases |s|
  {
    s == [] || (StringLitChar(s[0]) && LitChars(s[1..]))
  }

  /** `'[…]*'` */
  predicate IsStringLitText(t: string)
  {
    && |t| >= 2 && t[0] == '\'' && t[|t| - 1] == '\''
    && LitChars(t[1..|t| - 1])
  }

  /** `[a-zA-Z0-9]+` */
  predicate IsNameText(t: string)
  {
    t != "" && LettersOrDigits(t)
  }

  /** The pattern of a terminal rule, matched ignoring case against the
      whole token text. */
  datatype Pattern =
    | Literal(text: string)               // the text itself, e.g. `NULL`, `\*`
    | Either(left: Pattern, right: Pattern) // `left|right`
    | NameChars                           // `[a-zA-Z0-9]+`
    | IntegerForm                         // `[+-]?[0-9]+`
    | FloatForm                           // `[+-]?[0-9]+\.[0-9]+`
    | StringLitForm                       // `'[…]*'`

  predicate Matches(p: Pattern, t: string)
    decreases p
  {
    match p
    case Literal(w) => IsKeyword(t, w)
    case Either(a, b) => Matches(a, t) || Matches(b, t)
    case NameChars => IsNameText(t)
    case IntegerForm => IsIntegerText(t)
    case FloatForm => IsFloatText(t)
    case StringLitForm => IsStringLitText(t)
  }

  /** The regular expression each terminal rule is built with. */
  function TermPattern(k: TermRule): Pattern
  {
    match k
    case Attribute | DbName | TableName => NameChars
    case IntegerLiteral => IntegerForm
    case FloatLiteral => FloatForm
    case StringLiteral => StringLitForm
    case NullLiteral => Literal("NULL")
    case AsteriskLiteral => Literal("*")
    case Comparator =>
      Either(Literal("=="), Either(Literal(">"), Either(Literal("<"), Either(Literal(">="),
      Either(Literal("<="), Either(Literal("!="), Literal("LIKE")))))))
    case SemicolonLiteral => Literal(";")
    case CommaLiteral => Literal(",")
    case EqualsLiteral => Literal("=")
    case OpParenLiteral => Literal("(")
    case ClParenLiteral => Literal(")")
    case SpaceLiteral => Literal(" ")
    case AlterationType => Either(Literal("ADD"), Literal("DROP"))
    case BooleanLiteral => Either(Literal("TRUE"), Literal("FALSE"))
    case BoolOperator => Either(Literal("AND"), Literal("OR"))
    case UseLiteral => Literal("USE")
    case CreateLiteral => Literal("CREATE")
    case DbLiteral => Literal("DATABASE")
    case TableLiteral => Literal("TABLE")
    case DropLiteral => Literal("DROP")
    case AlterLiteral => Literal("ALTER")
    case InsertLiteral => Literal("INSERT")
    case IntoLiteral => Literal("INTO")
    case ValuesLiteral => Literal("VALUES")
    case SelectLiteral => Literal("SELECT")
    case FromLiteral => Literal("FROM")
    case WhereLiteral => Literal("WHERE")
    case UpdateLiteral => Literal("UPDATE")
    case SetLiteral => Literal("SET")
    case DeleteLiteral => Literal("DELETE")
    case JoinLiteral => Literal("JOIN")
    case AndLiteral => Literal("AND")
    case OnLiteral => Literal("ON")
  }

  /** Whether a terminal rule's pattern matches the whole token text. */
  predicate TermMatches(r: RuleName, t: string)
  {
    match r
    case T(k) => Matches(TermPattern(k), t)
    case _ => false
  }

  /** The reserved words, as listed (DROP appears twice). */
  const ReservedWords: seq<string> := ["USE", "CREATE", "DATABASE", "TABLE", "DROP",
    "ALTER", "INSERT", "INTO", "VALUES", "SELECT", "FROM", "WHERE", "UPDATE", "SET", "DELETE",
    "JOIN", "ON", "ADD", "DROP", "LIKE", "AND", "OR"]

  predicate IsReserved(name: string)
  {
    Upper(name) in ReservedWords
  }

  // ---------------------------------------------------------------------
  // Properties of the terminal patterns

  /** Keywords match whatever the case of their letters. */
  lemma {:induction false} KeywordIgnoresCase(t: string, word: string)
    requires IsKeyword(t, word)
    ensures forall u :: Upper(u) == Upper(t) ==> IsKeyword(u, word)
  {
    KeywordIsUpper(t, word);
    forall u | Upper(u) == Upper(t)
      ensures IsKeyword(u, word)
    {
      KeywordIsUpper(u, word);
    }
  }

  /** The recursive digit check is the one-character-at-a-time reading of
      "every character is a digit". */
  lemma {:induction false} DigitsMeans(s: string)
    ensures Digits(s) <==> AllDigits(s)
    decreases |s|
  {
    if s != [] {
      DigitsMeans(s[1..]);
      assert forall i :: 1 <= i < |s| ==> s[i] == s[1..][i - 1];
    }
  }

  lemma {:induction false} LettersOrDigitsMeans(s: string)
    ensures LettersOrDigits(s) <==> AllLetterOrDigit(s)
    decreases |s|
  {
    if s != [] {
      LettersOrDigitsMeans(s[1..]);
      assert forall i :: 1 <= i < |s| ==> s[i] == s[1..][i - 1];
    }
  }

  lemma {:induction false} DigitsLast(s: string)
    requires Digits(s) && s != []
    ensures IsDigit(s[|s| - 1])
    decreases |s|
  {
    if |s| > 1 {
      DigitsLast(s[1..]);
      assert s[|s| - 1] == s[1..][|s| - 2];
    }
  }

  /** A float body starts and ends with a digit and holds a point. */
  lemma {:induction false} FloatBodyShape(s: string)
    requires FloatBody(s)
    ensures IsDigit(s[0]) && IsDigit(s[|s| - 1]) && '.' in s
    decreases |s|
  {
    if s[1] == '.' && Digits(s[2..]) {
      DigitsLast(s[2..]);
      assert s[|s| - 1] == s[2..][|s| - 3];
    } else {
      FloatBodyShape(s[1..]);
      assert s[|s| - 1] == s[1..][|s| - 2];
      var k :| 0 <= k < |s[1..]| && s[1..][k] == '.';
      assert s[k + 1] == '.';
    }
  }

  /** A float needs digits on both sides of its point. */
  lemma {:induction false} FloatNeedsDigitsBothSides(t: string)
    requires IsFloatText(t)
    ensures '.' in t
    ensures t[|t| - 1] != '.'
    ensures t[0] != '.'
  {
    var body := Unsigned(t);
    FloatBodyShape(body);
    if body != t {
      assert t[|t| - 1] == body[|body| - 1];
      var k :| 0 <= k < |body| && body[k] == '.';
      assert t[k + 1] == '.';
    }
  }

  /** Digits alone hold no point, so they are never a float body. */
  lemma {:induction false} DigitsNotFloat(s: string)
    requires Digits(s)
    ensures !FloatBody(s)
    decreases |s|
  {
    if |s| >= 3 {
      assert IsDigit(s[1..][0]);
      DigitsNotFloat(s[1..]);
    }
  }

  /** No text is both an integer and a float. */
  lemma {:induction false} IntegerNotFloat(t: string)
    ensures !(IsIntegerText(t) && IsFloatText(t))
  {
    if IsIntegerText(t) {
      DigitsNotFloat(Unsigned(t));
    }
  }

  /** A text with one character that is neither a letter nor a digit is not
      a name. */
  lemma {:induction false} NotNameAt(t: string, i: nat)
    requires i < |t| && !IsLetterOrDigit(t[i])
    ensures !IsNameText(t)
  {
    LettersOrDigitsMeans(t);
  }

  /** The underscore and the star are not name characters. */
  lemma {:induction false} NameExamples()
    ensures !IsNameText("finance_data")
    ensures !IsNameText("censors**p")
  {
    NotNameAt("finance_data", 7);
    NotNameAt("censors**p", 7);
  }

  lemma {:induction false} NameAccepted()
    ensures IsNameText("marks")
  {
    var m := "marks";
    assert IsLetter(m[0]) && IsLetter(m[1]) && IsLetter(m[2]) && IsLetter(m[3]) && IsLetter(m[4]);
    LettersOrDigitsMeans(m);
  }

  lemma {:induction false} FloatExamples()
    ensures !IsFloatText("2.")
    ensures !IsFloatText(".99")
    ensures IsFloatText("-12.12")
  {
    assert Unsigned("-12.12") == "12.12";
    assert Unsigned(".99") == ".99";
    assert Unsigned("2.") == "2.";
  }

  /** The double quote, the pound sign and the not sign are refused inside a
      string literal. */
  lemma {:induction false} StringLitExamples()
    ensures !IsStringLitText("'a\"b'")
    ensures !IsStringLitText("'£'")
    ensures !IsStringLitText("'¬'")
    ensures IsStringLitText("'Simon'")
  {
    assert "'a\"b'"[1..4] == "a\"b" && !LitChars("a\"b");
    assert "'£'"[1..2] == "£" && !LitChars("£");
    assert "'¬'"[1..2] == "¬" && !LitChars("¬");
    assert "'Simon'"[1..6] == "Simon" && LitChars("Simon");
  }

  /** The allowed characters are exactly the printable ASCII characters other
      than the double quote, the quote and the bar. */
  lemma {:induction false} StringLitCharIsPrintable(c: char)
    ensures StringLitChar(c) <==> ' ' <= c <= '~' && c != '"' && c != '\'' && c != '|'
  {
  }

  lemma {:induction false} ReservedExamples()
    ensures IsReserved("select") && IsReserved("Drop") && !IsReserved("marks")
    ensures |ReservedWords| == 22
  {
    assert Upper("select") == "SELECT";
    assert Upper("Drop") == "DROP";
    assert Upper("marks") == "MARKS";
  }
}
