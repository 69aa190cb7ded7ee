/** The scanner of the MATLAB-to-C++ translator: the `reserved` table, the
    token rules `t_ID`, `t_STRING`, `t_NUMBER`, `t_newline` and `t_error`,
    the string (literal) rules, and the lexer object whose position and line
    counter those rules update.

    Rule priority is the one PLY uses: characters of `t_ignore` are skipped
    first; then the function rules are tried in the order they are defined
    (`t_ID`, `t_STRING`, `t_NUMBER`, `t_newline`); then the string rules,
    sorted by the length of their regular expression as written, longest
    first, rules of equal length in definition order. The first rule that
    matches wins. */
module Lexer {
  import opened Wrappers

  /** The token types: the `tokens` list, which ends with the values of `reserved`. */
  datatype Kind =
    | NUMBER | ID | STRING
    | PLUS | MINUS | TIMES | DIVIDE
    | GREATER | LESS | MODULO
    | LBRACKET | RBRACKET
    | SEMICOLON | COMMA | COLON | EQUALS | LPAREN | RPAREN
    | IF | ELSE | FOR | INT | RETURN | COMPARISON | INCREMENT | DECREMENT
    | LESSEQUAL | GREATEREQUAL | END | BREAK | DISP

  /** The `reserved` table, from spelling to token type. */
  const Reserved: map<string, Kind> := map[
    "if" := IF, "else" := ELSE, "for" := FOR, "int" := INT, "return" := RETURN,
    "==" := COMPARISON, "++" := INCREMENT, "--" := DECREMENT,
    "<=" := LESSEQUAL, ">=" := GREATEREQUAL, "end" := END,
    "break" := BREAK, "disp" := DISP]

  /** The token types an identifier-shaped lexeme can be given. */
  const WordKinds: set<Kind> := {ID, IF, ELSE, FOR, INT, RETURN, END, BREAK, DISP}

  /** The one spelling a token of kind `k` can have, for the kinds that have one. */
  function FixedText(k: Kind): Option<string> {
    match k
    case NUMBER | ID | STRING => None
    case PLUS => Some("+")
    case MINUS => Some("-")
    case TIMES => Some("*")
    case DIVIDE => Some("/")
    case GREATER => Some(">")
    case LESS => Some("<")
    case MODULO => Some("mod")
    case LBRACKET => Some("{")
    case RBRACKET => Some("}")
    case SEMICOLON => Some(";")
    case COMMA => Some(",")
    case COLON => Some(";")
    case EQUALS => Some("=")
    case LPAREN => Some("(")
    case RPAREN => Some(")")
    case IF => Some("if")
    case ELSE => Some("else")
    case FOR => Some("for")
    case INT => Some("int")
    case RETURN => Some("return")
    case COMPARISON => Some("==")
    case INCREMENT => Some("++")
    case DECREMENT => Some("--")
    case LESSEQUAL => Some("<=")
    case GREATEREQUAL => Some(">=")
    case END => Some("end")
    case BREAK => Some("break")
    case DISP => Some("disp")
  }

  predicate IsLetter(c: char) { 'a' <= c <= 'z' || 'A' <= c <= 'Z' || c == '_' }

  predicate IsDigit(c: char) { '0' <= c <= '9' }

  predicate IsIdentChar(c: char) { IsLetter(c) || IsDigit(c) }

  /** `s.count(c)` for a one-character `c`. */
  function Count(s: string, c: char): (n: nat)
    ensures n <= |s|
  {
    if s == [] then 0 else (if s[0] == c then 1 else 0) + Count(s[1..], c)
  }

  /** No occurrence counts as zero, and only a string made of `c` alone counts its whole length. */
  lemma {:induction false} CountExtremes(s: string, c: char)
    ensures Count(s, c) == 0 <==> c !in s
    ensures Count(s, c) == |s| <==> forall i :: 0 <= i < |s| ==> s[i] == c
  {
    if s != [] {
      CountExtremes(s[1..], c);
      assert s == [s[0]] + s[1..];
      assert forall i :: 1 <= i < |s| ==> s[i] == s[1..][i - 1];
    }
  }

  lemma {:induction false} CountAppend(a: string, b: string, c: char)
    ensures Count(a + b, c) == Count(a, c) + Count(b, c)
  {
    if a == [] {
      assert a + b == b;
    } else {
      assert (a + b)[0] == a[0];
      assert (a + b)[1..] == a[1..] + b;
      CountAppend(a[1..], b, c);
    }
  }

  /** The language of `[a-zA-Z_][a-zA-Z_0-9]*`. */
  predicate IsIdentifier(s: string) {
    |s| > 0 && IsLetter(s[0]) && forall i :: 1 <= i < |s| ==> IsIdentChar(s[i])
  }

  /** The language of `\d+\.?\d*`: a digit first, then digits and at most one point. */
  predicate IsNumberLexeme(s: string) {
    && |s| > 0 && IsDigit(s[0])
    && (forall i :: 0 <= i < |s| ==> IsDigit(s[i]) || s[i] == '.')
    && Count(s, '.') <= 1
  }

  /** The lexemes of `".*"`: quote, characters other than a line break, quote. */
  predicate IsStringLexeme(s: string) {
    |s| >= 2 && s[0] == '"' && s[|s| - 1] == '"' && forall i :: 0 <= i < |s| ==> s[i] != '\n'
  }

  /** What the text of a token of kind `k` looks like. */
  predicate Spelled(k: Kind, s: string) {
    match k
    case ID => IsIdentifier(s) && s !in Reserved
    case NUMBER => IsNumberLexeme(s)
    case STRING => IsStringLexeme(s)
    case _ => FixedText(k) == Some(s)
  }

  /** A token of a fixed-text kind has that kind's one spelling. */
  lemma FixedSpelled(k: Kind, s: string)
    requires FixedText(k).Some? && Spelled(k, s)
    ensures s == FixedText(k).value
  {
  }

  /** `t.type = reserved.get(t.value, 'ID')` in `t_ID`. */
  function Classify(lexeme: string): (k: Kind)
    ensures lexeme in Reserved ==> k == Reserved[lexeme]
    ensures lexeme !in Reserved ==> k == ID
    ensures k != ID ==> FixedText(k) == Some(lexeme)
    ensures IsIdentifier(lexeme) ==> k in WordKinds && Spelled(k, lexeme)
  {
    if lexeme in Reserved then Reserved[lexeme] else ID
  }

  datatype CharClass = IdentChars | Digits | Newlines | NotNewline

  predicate InClass(c: char, cls: CharClass) {
    match cls
    case IdentChars => IsIdentChar(c)
    case Digits => IsDigit(c)
    case Newlines => c == '\n'
    case NotNewline => c != '\n'   // the `.` of a regular expression
  }

  /** The end of the longest run of characters of class `cls` that starts at `i`. */
  function RunEnd(d: string, i: nat, cls: CharClass): (j: nat)
    requires i <= |d|
    ensures i <= j <= |d|
    ensures forall k :: i <= k < j ==> InClass(d[k], cls)
    ensures j == |d| || !InClass(d[j], cls)
    decreases |d| - i
  {
    if i < |d| && InClass(d[i], cls) then RunEnd(d, i + 1, cls) else i
  }

  /** The last quote in `d[lo..hi]`, if there is one. */
  function LastQuote(d: string, lo: nat, hi: nat): (q: Option<nat>)
    requires lo <= hi <= |d|
    ensures q.Some? ==> lo <= q.value < hi && d[q.value] == '"'
    ensures q.Some? ==> forall m :: q.value < m < hi ==> d[m] != '"'
    ensures q.None? ==> forall m :: lo <= m < hi ==> d[m] != '"'
    decreases hi - lo
  {
    if lo == hi then None
    else if d[hi - 1] == '"' then Some(hi - 1)
    else LastQuote(d, lo, hi - 1)
  }

  /** Where `".*"` ends when it matches at the quote at `i`: the greedy `.*`
      runs to the line break, then gives back up to the last quote. */
  function StringEnd(d: string, i: nat): (e: Option<nat>)
    requires i < |d| && d[i] == '"'
    ensures e.Some? ==> i + 2 <= e.value <= |d| && IsStringLexeme(d[i..e.value])
    ensures e.Some? ==> forall m :: e.value <= m < RunEnd(d, i + 1, NotNewline) ==> d[m] != '"'
    ensures e.None? ==> forall m :: i < m < RunEnd(d, i + 1, NotNewline) ==> d[m] != '"'
  {
    var lineEnd := RunEnd(d, i + 1, NotNewline);
    match LastQuote(d, i + 1, lineEnd)
    case Some(q) => Some(q + 1)
    case None => None
  }

  /** Where `\d+\.?\d*` ends when it matches at the digit at `i`; the match
      cannot be extended by one more character. */
  function NumberEnd(d: string, i: nat): (j: nat)
    requires i < |d| && IsDigit(d[i])
    ensures i < j <= |d| && IsNumberLexeme(d[i..j])
    ensures j < |d| ==> !IsNumberLexeme(d[i..j + 1])
  {
    var k := RunEnd(d, i, Digits);
    var j := if k < |d| && d[k] == '.' then RunEnd(d, k + 1, Digits) else k;
    NumberParts(d, i, k, j);
    j
  }

  lemma NumberParts(d: string, i: nat, k: nat, j: nat)
    requires i < |d| && IsDigit(d[i]) && k == RunEnd(d, i, Digits)
    requires j == if k < |d| && d[k] == '.' then RunEnd(d, k + 1, Digits) else k
    ensures i < j <= |d|
    ensures IsNumberLexeme(d[i..j])
    ensures j < |d| ==> !IsNumberLexeme(d[i..j + 1])
  {
    PointCount(d, i, k, j);
    if j < |d| {
      var s := d[i..j + 1];
      assert s[j - i] == d[j];
      if d[j] == '.' {
        assert s == d[i..j] + [d[j]];
        CountAppend(d[i..j], [d[j]], '.');
      }
    }
  }

  /** Digits, then possibly a point and digits: a number lexeme with as many points as parts after the first. */
  lemma PointCount(d: string, i: nat, k: nat, j: nat)
    requires i < k <= j <= |d|
    requires forall m :: i <= m < k ==> IsDigit(d[m])
    requires k < j ==> d[k] == '.' && forall m :: k < m < j ==> IsDigit(d[m])
    ensures IsNumberLexeme(d[i..j]) && Count(d[i..j], '.') == (if k < j then 1 else 0)
  {
    assert d[i..j] == d[i..k] + d[k..j];
    CountAppend(d[i..k], d[k..j], '.');
    assert forall m :: 0 <= m < k - i ==> d[i..k][m] == d[i + m];
    CountExtremes(d[i..k], '.');
    if k < j {
      assert d[k..j] == [d[k]] + d[k + 1..j];
      CountAppend([d[k]], d[k + 1..j], '.');
      assert forall m :: k + 1 <= m < j ==> d[k + 1..j][m - k - 1] == d[m];
      CountExtremes(d[k + 1..j], '.');
    } else {
      assert d[k..j] == [];
    }
    assert forall m :: 0 <= m < j - i ==> d[i..j][m] == d[i + m];
  }

  /** The string rules that can fire at a character no function rule claims,
      in PLY's order. Rules whose expression starts with a letter or a digit
      (`'return'`, `r'\disp'`, `r'mod'`, `"end"`, `r'if'`) never fire: `t_ID`
      or `t_NUMBER` claims every such position first. The rest, sorted by
      expression length: `r'\+\+'` (4); then, of length 2 and in definition
      order, `r'\('`, `r'\)'`, `r'\+'`, `r'\*'`, `r'\='`, `r'=='`, `r'>='`,
      `r'<='`, `r'\{'`, `r'\}'`, `r'\;'`, `r'\,'`, `r'--'`; then, of length
      1, `r'-'`, `r'/'`, `r'>'`, `r'<'`, `r';'`. Each two-character rule
      therefore comes before the one-character rule for its first character,
      except `==`, which comes after `\=`; and `\;` (SEMICOLON) comes before
      `;` (COLON). */
  function MatchLiteral(d: string, p: nat): (m: Option<(Kind, nat)>)
    requires p < |d|
    ensures m.Some? ==> 0 < m.value.1 && p + m.value.1 <= |d|
    ensures m.Some? ==> FixedText(m.value.0) == Some(d[p..p + m.value.1]) && Emittable(m.value.0)
    ensures m.None? <==> d[p] !in "()+*={};,-/><"
    ensures m.Some? ==> m.value.1 == 1 || m.value.1 == 2
    // a two-character rule that matches beats the one-character rule for its first character
    ensures p + 1 < |d| && PairKind(d[p], d[p + 1]).Some? ==> m == Some((PairKind(d[p], d[p + 1]).value, 2))
    ensures m.Some? && m.value.1 == 2 <==> p + 1 < |d| && [d[p], d[p + 1]] in {"++", ">=", "<=", "--"}
    ensures m.Some? && m.value.1 == 1 ==> m.value.0 == SingleKind(d[p]).value
  {
    var two := if p + 1 < |d| then PairKind(d[p], d[p + 1]) else None;
    if two.Some? then
      assert d[p..p + 2] == [d[p], d[p + 1]];
      Some((two.value, 2))
    else
      match SingleKind(d[p])
      case Some(k) =>
        assert d[p..p + 1] == [d[p]];
        Some((k, 1))
      case None => None
  }

  /** The two-character rules that win at `a` followed by `b`. */
  function PairKind(a: char, b: char): (k: Option<Kind>)
    ensures k.Some? ==> FixedText(k.value) == Some([a, b]) && Emittable(k.value)
    ensures k.Some? <==> [a, b] in {"++", ">=", "<=", "--"}
  {
    if a == '+' && b == '+' then Some(INCREMENT)
    else if a == '>' && b == '=' then Some(GREATEREQUAL)
    else if a == '<' && b == '=' then Some(LESSEQUAL)
    else if a == '-' && b == '-' then Some(DECREMENT)
    else None
  }

  /** The one-character rule that wins at `c`. */
  function SingleKind(c: char): (k: Option<Kind>)
    ensures k.Some? ==> FixedText(k.value) == Some([c]) && Emittable(k.value)
    ensures k.Some? <==> c in "()+*={};,-/><"
  {
    match c
    case '(' => Some(LPAREN)
    case ')' => Some(RPAREN)
    case '+' => Some(PLUS)
    case '*' => Some(TIMES)
    case '=' => Some(EQUALS)      // `\=` before `==`: COMPARISON never fires
    case '{' => Some(LBRACKET)
    case '}' => Some(RBRACKET)
    case ';' => Some(SEMICOLON)   // `\;` before `;`: COLON never fires
    case ',' => Some(COMMA)
    case '-' => Some(MINUS)
    case '/' => Some(DIVIDE)
    case '>' => Some(GREATER)
    case '<' => Some(LESS)
    case _ => None
  }

  /** The token types that some input can produce. */
  predicate Emittable(k: Kind) {
    k != MODULO && k != COLON && k != COMPARISON
  }

  /** A token: its type, its text, and the line and offset where it starts. */
  datatype Token = Token(kind: Kind, value: string, lineno: nat, lexpos: nat)

  /** The message `t_error` prints, kept as a record. */
  datatype Diagnostic = IllegalCharacter(ch: char, lineno: nat, lexpos: nat)

  datatype Scan = Scan(tokens: seq<Token>, diagnostics: seq<Diagnostic>)

  /** The rule that fired. */
  datatype Rule = Ignored | IdRule | StringRule | NumberRule | NewlineRule | LiteralRule | ErrorRule

  /** One rule firing: what fired, the token it yields, if any, the message it
      records, if any, and the position and line counter it leaves behind. */
  datatype Step = Step(rule: Rule, token: Option<Token>, diagnostic: Option<Diagnostic>, next: nat, lineno: nat)

  /** A step that yields the token `d[p..s.next]`, found at line `l` and
      offset `p`, spelled as its type requires and of a type some input can
      produce; the token holds no line break, so the counter stays `l`. */
  predicate YieldsToken(d: string, p: nat, l: nat, s: Step) {
    && p < s.next <= |d| && s.lineno == l && s.diagnostic.None? && s.token.Some?
    && s.token.value.value == d[p..s.next] && s.token.value.lineno == l && s.token.value.lexpos == p
    && Spelled(s.token.value.kind, s.token.value.value) && Emittable(s.token.value.kind)
    && Count(s.token.value.value, '\n') == 0
  }

  /** `t_ID` at the letter at `p`: the longest identifier, typed by `reserved`. */
  function IdStep(d: string, p: nat, l: nat): (s: Step)
    requires p < |d| && IsLetter(d[p])
    ensures s.rule == IdRule && YieldsToken(d, p, l, s)
    ensures IsIdentifier(d[p..s.next]) && s.token.value.kind == Classify(d[p..s.next])
    ensures s.next == RunEnd(d, p + 1, IdentChars)
  {
    var j := RunEnd(d, p + 1, IdentChars);
    var value := d[p..j];
    assert forall i :: 1 <= i < |value| ==> value[i] == d[p + i];
    IdentifierToken(value);
    Step(IdRule, Some(Token(Classify(value), value, l, p)), None, j, l)
  }

  /** An identifier-shaped lexeme, typed by `reserved`, makes a well-spelled
      token of a type some input produces, with no line break in it. */
  lemma IdentifierToken(value: string)
    requires IsIdentifier(value)
    ensures Spelled(Classify(value), value) && Emittable(Classify(value)) && Count(value, '\n') == 0
  {
    assert forall i :: 0 <= i < |value| ==> value[i] != '\n';
    CountExtremes(value, '\n');
  }

  /** `t_STRING` at the quote at `p`, when the line holds another quote. */
  function StringStep(d: string, p: nat, l: nat): (s: Step)
    requires p < |d| && d[p] == '"' && StringEnd(d, p).Some?
    ensures s.rule == StringRule && YieldsToken(d, p, l, s)
    ensures s.token.value.kind == STRING && s.next == StringEnd(d, p).value
  {
    var e := StringEnd(d, p).value;
    CountExtremes(d[p..e], '\n');
    Step(StringRule, Some(Token(STRING, d[p..e], l, p)), None, e, l)
  }

  /** `t_NUMBER` at the digit at `p`. */
  function NumberStep(d: string, p: nat, l: nat): (s: Step)
    requires p < |d| && IsDigit(d[p])
    ensures s.rule == NumberRule && YieldsToken(d, p, l, s)
    ensures s.token.value.kind == NUMBER && s.next == NumberEnd(d, p)
  {
    var e := NumberEnd(d, p);
    NumberToken(d[p..e]);
    Step(NumberRule, Some(Token(NUMBER, d[p..e], l, p)), None, e, l)
  }

  lemma NumberToken(value: string)
    requires IsNumberLexeme(value)
    ensures Count(value, '\n') == 0
  {
    assert forall i :: 0 <= i < |value| ==> value[i] != '\n';
    CountExtremes(value, '\n');
  }

  /** `t_newline` at the line break at `p`: the whole run, counted into the line number. */
  function NewlineStep(d: string, p: nat, l: nat): (s: Step)
    requires p < |d| && d[p] == '\n'
    ensures s.rule == NewlineRule && p < s.next <= |d| && s.token.None? && s.diagnostic.None?
    ensures s.lineno == l + Count(d[p..s.next], '\n') == l + (s.next - p)
    ensures s.next < |d| ==> d[s.next] != '\n'
  {
    var e := RunEnd(d, p, Newlines);
    assert forall i :: 0 <= i < e - p ==> d[p..e][i] == '\n';
    CountExtremes(d[p..e], '\n');
    Step(NewlineRule, None, None, e, l + Count(d[p..e], '\n'))
  }

  /** The first string rule that matches at `p`. */
  function LiteralStep(d: string, p: nat, l: nat): (s: Step)
    requires p < |d| && MatchLiteral(d, p).Some?
    ensures s.rule == LiteralRule && YieldsToken(d, p, l, s)
    ensures MatchLiteral(d, p) == Some((s.token.value.kind, s.next - p))
  {
    var (k, n) := MatchLiteral(d, p).value;
    Step(LiteralRule, Some(Token(k, d[p..p + n], l, p)), None, p + n, l)
  }

  /** `t_ignore` at the blank at `p`, or `t_error` at the character at `p`:
      nothing is yielded and the position moves by one. */
  function SkipStep(d: string, p: nat, l: nat, rule: Rule): (s: Step)
    requires p < |d| && (rule == Ignored || rule == ErrorRule)
    ensures s.rule == rule && s.next == p + 1 && s.lineno == l && s.token.None?
    ensures s.lineno == l + Count(d[p..s.next], '\n') <==> d[p] != '\n'
    ensures s.diagnostic == if rule == ErrorRule then Some(IllegalCharacter(d[p], l, p)) else None
  {
    assert d[p..p + 1] == [d[p]];
    Step(rule, None, if rule == ErrorRule then Some(IllegalCharacter(d[p], l, p)) else None, p + 1, l)
  }

  /** The rule that fires at `p`, in PLY's priority order, with what it yields. */
  function StepAt(d: string, p: nat, l: nat): (s: Step)
    requires p < |d|
    ensures p < s.next <= |d|
    ensures s.lineno == l + Count(d[p..s.next], '\n')
    ensures s.rule != NewlineRule ==> s.lineno == l
    ensures s.token.Some? ==> YieldsToken(d, p, l, s)
    ensures s.token.Some? <==> s.rule !in {Ignored, NewlineRule, ErrorRule}
    ensures s.diagnostic.Some? <==> s.rule == ErrorRule
    ensures s.rule == Ignored <==> d[p] == ' ' || d[p] == '\t'
    ensures s.rule == NewlineRule <==> d[p] == '\n'
    ensures s.rule == NewlineRule ==> s.lineno == l + (s.next - p)
    ensures s.rule in {Ignored, ErrorRule} ==> s.next == p + 1
    ensures s.rule == ErrorRule ==> s.diagnostic.value == IllegalCharacter(d[p], l, p)
    ensures s.rule == ErrorRule ==> !IsIdentChar(d[p]) && d[p] !in " \t\n()+*={};,-/><"
    // the priority order: which rule fires where, and what it takes
    ensures s.rule == IdRule <==> IsLetter(d[p])
    ensures s.rule == IdRule ==> s.next == RunEnd(d, p + 1, IdentChars) && s.token.value.kind == Classify(d[p..s.next])
    ensures s.rule == StringRule <==> d[p] == '"' && StringEnd(d, p).Some?
    ensures s.rule == StringRule ==> s.next == StringEnd(d, p).value && s.token.value.kind == STRING
    ensures s.rule == NumberRule <==> IsDigit(d[p])
    ensures s.rule == NumberRule ==> s.next == NumberEnd(d, p) && s.token.value.kind == NUMBER
    ensures s.rule == LiteralRule <==> MatchLiteral(d, p).Some?
    ensures s.rule == LiteralRule ==> MatchLiteral(d, p) == Some((s.token.value.kind, s.next - p))
  {
    var c := d[p];
    if c == ' ' || c == '\t' then NoLiteralAt(d, p); SkipStep(d, p, l, Ignored)
    else if IsLetter(c) then NoLiteralAt(d, p); IdStep(d, p, l)
    else if c == '"' && StringEnd(d, p).Some? then NoLiteralAt(d, p); StringStep(d, p, l)
    else if IsDigit(c) then NoLiteralAt(d, p); NumberStep(d, p, l)
    else if c == '\n' then NoLiteralAt(d, p); NewlineStep(d, p, l)
    else if MatchLiteral(d, p).Some? then LiteralStep(d, p, l)
    else SkipStep(d, p, l, ErrorRule)
  }

  /** No string rule matches at a blank, a letter, a digit, a quote or a line break. */
  lemma NoLiteralAt(d: string, p: nat)
    requires p < |d|
    requires d[p] == ' ' || d[p] == '\t' || IsIdentChar(d[p]) || d[p] == '"' || d[p] == '\n'
    ensures MatchLiteral(d, p).None?
  {
  }

  /** Maximal munch for `t_ID`: at a letter the identifier rule fires, and the
      identifier it takes cannot be extended by the next character. */
  lemma LongestIdentifier(d: string, p: nat, l: nat)
    requires p < |d| && IsLetter(d[p])
    ensures var s := StepAt(d, p, l);
            && s.rule == IdRule && IsIdentifier(d[p..s.next])
            && (s.next < |d| ==> !IsIdentifier(d[p..s.next + 1]))
  {
    var s := StepAt(d, p, l);
    assert s == IdStep(d, p, l);
    if s.next < |d| {
      assert d[p..s.next + 1][s.next - p] == d[s.next];
    }
  }

  /** Maximal munch for `t_NUMBER`: at a digit the number rule fires, and the
      number it takes cannot be extended by the next character. */
  lemma LongestNumber(d: string, p: nat, l: nat)
    requires p < |d| && IsDigit(d[p])
    ensures var s := StepAt(d, p, l);
            && s.rule == NumberRule && IsNumberLexeme(d[p..s.next])
            && (s.next < |d| ==> !IsNumberLexeme(d[p..s.next + 1]))
  {
    assert StepAt(d, p, l) == NumberStep(d, p, l);
  }

  /** Everything the lexer yields from position `p` on, when its line counter is `lineno`. */
  function Lex(d: string, p: nat, lineno: nat): Scan
    requires p <= |d|
    decreases |d| - p
  {
    if p == |d| then Scan([], [])
    else
      var s := StepAt(d, p, lineno);
      var rest := Lex(d, s.next, s.lineno);
      Scan((if s.token.Some? then [s.token.value] else []) + rest.tokens,
           (if s.diagnostic.Some? then [s.diagnostic.value] else []) + rest.diagnostics)
  }

  /** Every token's text is the input's slice at the token's offset, unaltered;
      it is spelled as its type requires; and its type is one the rules can
      produce (never COMPARISON, COLON or MODULO). */
  lemma {:induction false} LexemesVerbatim(d: string, p: nat, l: nat)
    requires p <= |d|
    ensures forall t <- Lex(d, p, l).tokens ::
              && p <= t.lexpos && t.lexpos + |t.value| <= |d|
              && d[t.lexpos..t.lexpos + |t.value|] == t.value
              && Spelled(t.kind, t.value) && Emittable(t.kind)
    decreases |d| - p
  {
    if p < |d| {
      var s := StepAt(d, p, l);
      LexemesVerbatim(d, s.next, s.lineno);
    }
  }

  /** Tokens in source order, none overlapping the next. */
  predicate InSourceOrder(ts: seq<Token>) {
    forall i, j | 0 <= i < j < |ts| :: ts[i].lexpos + |ts[i].value| <= ts[j].lexpos
  }

  /** Every token starts at or after `p`. */
  lemma {:induction false} TokensStartAfter(d: string, p: nat, l: nat)
    requires p <= |d|
    ensures forall t <- Lex(d, p, l).tokens :: p <= t.lexpos
    decreases |d| - p
  {
    if p < |d| {
      var s := StepAt(d, p, l);
      TokensStartAfter(d, s.next, s.lineno);
    }
  }

  /** Tokens come out in source order and never overlap. */
  lemma {:induction false} TokensInSourceOrder(d: string, p: nat, l: nat)
    requires p <= |d|
    ensures InSourceOrder(Lex(d, p, l).tokens)
    decreases |d| - p
  {
    if p < |d| {
      var s := StepAt(d, p, l);
      var rest := Lex(d, s.next, s.lineno).tokens;
      TokensInSourceOrder(d, s.next, s.lineno);
      if s.token.Some? {
        TokensStartAfter(d, s.next, s.lineno);
        ConsInOrder(s.token.value, rest, s.next);
        assert Lex(d, p, l).tokens == [s.token.value] + rest;
      } else {
        assert Lex(d, p, l).tokens == rest;
      }
    }
  }

  lemma ConsInOrder(t: Token, rest: seq<Token>, q: nat)
    requires t.lexpos + |t.value| <= q
    requires forall u <- rest :: q <= u.lexpos
    requires InSourceOrder(rest)
    ensures InSourceOrder([t] + rest)
  {
    var ts := [t] + rest;
    forall i, j | 0 <= i < j < |ts| ensures ts[i].lexpos + |ts[i].value| <= ts[j].lexpos {
      assert ts[j] == rest[j - 1];
      if i > 0 {
        assert ts[i] == rest[i - 1];
      }
    }
  }

  /** Each token's line number is `l` plus the line breaks from `p` to the token. */
  predicate LinesCounted(d: string, p: nat, l: nat, ts: seq<Token>) {
    forall t <- ts :: p <= t.lexpos <= |d| && t.lineno == l + Count(d[p..t.lexpos], '\n')
  }

  /** A token's line number is the starting line plus the line breaks between
      the starting offset and the token. */
  lemma {:induction false} LinenoCountsNewlines(d: string, p: nat, l: nat)
    requires p <= |d|
    ensures LinesCounted(d, p, l, Lex(d, p, l).tokens)
    decreases |d| - p
  {
    if p < |d| {
      var s := StepAt(d, p, l);
      var rest := Lex(d, s.next, s.lineno).tokens;
      LinenoCountsNewlines(d, s.next, s.lineno);
      CountedFromEarlier(d, p, l, s.next, s.lineno, rest);
      if s.token.Some? {
        assert d[p..p] == [];
        assert Lex(d, p, l).tokens == [s.token.value] + rest;
      } else {
        assert Lex(d, p, l).tokens == rest;
      }
    }
  }

  lemma CountedFromEarlier(d: string, p: nat, l: nat, q: nat, m: nat, ts: seq<Token>)
    requires p <= q <= |d| && m == l + Count(d[p..q], '\n')
    requires LinesCounted(d, q, m, ts)
    ensures LinesCounted(d, p, l, ts)
  {
    forall t <- ts
      ensures t.lineno == l + Count(d[p..t.lexpos], '\n')
    {
      assert d[p..t.lexpos] == d[p..q] + d[q..t.lexpos];
      CountAppend(d[p..q], d[q..t.lexpos], '\n');
    }
  }

  /** A run of line breaks yields no token and raises the line counter by
      exactly its length; scanning resumes right after it. */
  lemma NewlineRunCounts(d: string, p: nat, l: nat)
    requires p < |d| && d[p] == '\n'
    ensures var s := StepAt(d, p, l);
            && s.rule == NewlineRule && s.lineno == l + (s.next - p)
            && (s.next < |d| ==> d[s.next] != '\n')
            && Lex(d, p, l) == Lex(d, s.next, s.lineno)
  {
    var s := StepAt(d, p, l);
    var rest := Lex(d, s.next, s.lineno);
    assert s == NewlineStep(d, p, l);
    assert Lex(d, p, l).tokens == rest.tokens by {
      assert Lex(d, p, l).tokens == [] + rest.tokens;
    }
    assert Lex(d, p, l).diagnostics == rest.diagnostics by {
      assert Lex(d, p, l).diagnostics == [] + rest.diagnostics;
    }
  }

  /** An illegal character yields no token, is reported with its line and
      offset, and scanning resumes exactly one character later. */
  lemma IllegalCharacterSkipped(d: string, p: nat, l: nat)
    requires p < |d| && StepAt(d, p, l).rule == ErrorRule
    ensures Lex(d, p, l).tokens == Lex(d, p + 1, l).tokens
    ensures Lex(d, p, l).diagnostics == [IllegalCharacter(d[p], l, p)] + Lex(d, p + 1, l).diagnostics
  {
  }

  /** `==` is scanned as two EQUALS tokens: `\=` is tried before `==`. */
  lemma ComparisonShadowed()
    ensures Lex("==", 0, 1).tokens == [Token(EQUALS, "=", 1, 0), Token(EQUALS, "=", 1, 1)]
  {
    var d := "==";
    assert StepAt(d, 0, 1) == LiteralStep(d, 0, 1);
    assert MatchLiteral(d, 0) == Some((EQUALS, 1));
    assert StepAt(d, 1, 1) == LiteralStep(d, 1, 1);
    assert MatchLiteral(d, 1) == Some((EQUALS, 1));
    assert Lex(d, 2, 1).tokens == [];
  }

  /** Concatenation is associative. */
  lemma ConcatAssoc<T>(a: seq<T>, b: seq<T>, c: seq<T>)
    ensures a + (b + c) == (a + b) + c
  {
  }

  /** The lexer object PLY builds: the input, the position, the line counter,
      and the messages `t_error` has printed so far. */
  class Lexer {
    var lexdata: string
    var lexpos: nat
    var lineno: nat
    var diagnostics: seq<Diagnostic>

    ghost predicate Valid()
      reads this
    {
      lexpos <= |lexdata|
    }

    /** What the lexer has yet to yield. */
    ghost function Remaining(): Scan
      reads this
      requires Valid()
    {
      Lex(lexdata, lexpos, lineno)
    }

    constructor (data: string)
      ensures Valid() && lexdata == data && lexpos == 0 && lineno == 1 && diagnostics == []
    {
      lexdata, lexpos, lineno, diagnostics := data, 0, 1, [];
    }

    /** `t.lexer.skip(n)`. */
    method Skip(n: nat)
      modifies this`lexpos
      ensures lexpos == old(lexpos) + n
    {
      lexpos := lexpos + n;
    }

    /** The body of `t_newline`: `t.lexer.lineno += t.value.count("\n")`. */
    method OnNewline(value: string)
      modifies this`lineno
      ensures lineno == old(lineno) + Count(value, '\n')
    {
      lineno := lineno + Count(value, '\n');
    }

    /** The body of `t_error`: report the character at the position, then skip exactly one. */
    method OnError()
      requires Valid() && lexpos < |lexdata|
      modifies this`lexpos, this`diagnostics
      ensures Valid() && lexpos == old(lexpos) + 1
      ensures diagnostics == old(diagnostics) + [IllegalCharacter(lexdata[old(lexpos)], lineno, old(lexpos))]
    {
      diagnostics := diagnostics + [IllegalCharacter(lexdata[lexpos], lineno, lexpos)];
      Skip(1);
    }

    /** One pass of the loop in PLY's `token()`: fire the rule that matches
        at the position, run its action, and hand back its token, if any. */
    method FireRule() returns (tok: Option<Token>)
      requires Valid() && lexpos < |lexdata|
      modifies this`lexpos, this`lineno, this`diagnostics
      ensures Valid()
      ensures var s := StepAt(lexdata, old(lexpos), old(lineno));
              && tok == s.token && lexpos == s.next && lineno == s.lineno
              && diagnostics == old(diagnostics) + (if s.diagnostic.Some? then [s.diagnostic.value] else [])
    {
      var s := StepAt(lexdata, lexpos, lineno);
      tok := s.token;
      match s.rule
      case Ignored =>
        lexpos := lexpos + 1;
      case NewlineRule =>
        var value := lexdata[lexpos..s.next];
        lexpos := s.next;
        OnNewline(value);
      case ErrorRule =>
        OnError();
      case _ =>
        lexpos := s.next;
    }

    /** PLY's `token()`: fire rules from the position until one yields a
        token, or the input is exhausted. */
    method NextToken() returns (tok: Option<Token>)
      requires Valid()
      modifies this`lexpos, this`lineno, this`diagnostics
      ensures Valid()
      ensures tok.None? ==> lexpos == |lexdata| && Remaining() == Scan([], [])
      ensures tok.Some? ==> old(lexpos) < lexpos
      ensures old(Remaining()).tokens == (if tok.Some? then [tok.value] else []) + Remaining().tokens
      ensures old(diagnostics) + old(Remaining()).diagnostics == diagnostics + Remaining().diagnostics
    {
      while lexpos < |lexdata|
        invariant Valid() && old(lexpos) <= lexpos
        invariant old(Remaining()).tokens == Remaining().tokens
        invariant old(diagnostics) + old(Remaining()).diagnostics == diagnostics + Remaining().diagnostics
        decreases |lexdata| - lexpos
      {
        ghost var rem := Remaining();
        ghost var before := diagnostics;
        ghost var s := StepAt(lexdata, lexpos, lineno);
        ghost var reported := if s.diagnostic.Some? then [s.diagnostic.value] else [];
        tok := FireRule();
        assert rem.tokens == (if tok.Some? then [tok.value] else []) + Remaining().tokens;
        assert rem.diagnostics == reported + Remaining().diagnostics;
        assert diagnostics == before + reported;
        ConcatAssoc(before, reported, Remaining().diagnostics);
        if tok.Some? {
          return;
        }
      }
      tok := None;
    }
  }

  /** Pull every token from a fresh lexer over `data`, as the parser does. */
  method Tokenize(data: string) returns (s: Scan)
    ensures s == Lex(data, 0, 1)
  {
    var lexer := new Lexer(data);
    ghost var all := lexer.Remaining();
    var tokens: seq<Token> := [];
    while true
      invariant lexer.Valid() && lexer.lexdata == data
      invariant all.tokens == tokens + lexer.Remaining().tokens
      invariant all.diagnostics == lexer.diagnostics + lexer.Remaining().diagnostics
      decreases |data| - lexer.lexpos
    {
      var tok := lexer.NextToken();
      if tok.None? {
        break;
      }
      ConcatAssoc(tokens, [tok.value], lexer.Remaining().tokens);
      tokens := tokens + [tok.value];
    }
    s := Scan(tokens, lexer.diagnostics);
  }
}
