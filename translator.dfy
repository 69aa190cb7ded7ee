/** The semantic actions of the translator's grammar. Each `p_` function
    builds C++ text from the text of its children; the parse tree they work
    on is the `Expr`/`Statement`/`Line`/`IfStatement`/`Body` tree below, one
    constructor per production. */
module Translator {
  import opened Wrappers
  import Lexer

  /** `expression : NUMBER | ID | LPAREN expression RPAREN | DISP LPAREN expression RPAREN` */
  datatype Expr =
    | Number(lexeme: string)
    | Ident(name: string)
    | Group(inner: Expr)
    | Disp(arg: Expr)

  /** `statement : ID EQUALS expression | RETURN expression | RETURN` */
  datatype Statement =
    | Assign(target: string, value: Expr)
    | Return(result: Option<Expr>)

  /** `line : statement SEMICOLON | expression SEMICOLON | if_statement` */
  datatype Line =
    | StatementLine(statement: Statement)
    | ExpressionLine(expr: Expr)
    | IfLine(ifStatement: IfStatement)

  /** `if_statement : IF expression body END | IF expression body ELSE body END` */
  datatype IfStatement =
    | IfThen(cond: Expr, thenBody: Body)
    | IfElse(cond: Expr, thenBody: Body, elseBody: Body)

  /** `body : line body | empty` */
  datatype Body = EmptyBody | LineThen(line: Line, rest: Body)

  /** `function_args : expression COMMA function_args | expression | empty` */
  datatype FunctionArgs = NoArgs | LastArg(arg: Expr) | ArgThen(arg: Expr, rest: FunctionArgs)

  /** What `for l in t[3]` raises when the body's value is `None`: a
      `TypeError`, as `None` is not iterable. */
  datatype Raised = NoneNotIterable

  type Outcome<T> = Result<T, Raised>

  /** The lexemes a NUMBER or an ID token can carry. */
  predicate ValidExpr(e: Expr) {
    match e
    case Number(lexeme) => Lexer.Spelled(Lexer.NUMBER, lexeme)
    case Ident(name) => Lexer.Spelled(Lexer.ID, name)
    case Group(inner) => ValidExpr(inner)
    case Disp(arg) => ValidExpr(arg)
  }

  predicate ValidStatement(s: Statement) {
    match s
    case Assign(target, value) => Lexer.Spelled(Lexer.ID, target) && ValidExpr(value)
    case Return(result) => result.Some? ==> ValidExpr(result.value)
  }

  /** `p_disp`: `"cout<<"`, the argument's characters one by one, `"<<endl"`. */
  function DispText(e: string): (r: string)
    ensures |r| == |e| + 12 && r[6..|r| - 6] == e
  {
    "cout<<" + e + "<<endl"
  }

  /** `p_expression_number` and `p_expression_id` pass the token's text on;
      `p_expression_group` wraps it in parentheses; `p_disp` as above. */
  function ExprText(e: Expr): string {
    match e
    case Number(lexeme) => lexeme
    case Ident(name) => name
    case Group(inner) => "(" + ExprText(inner) + ")"
    case Disp(arg) => DispText(ExprText(arg))
  }

  /** The text of an expression built from tokens is never empty, holds no
      `;` and no line break, and opens as many parentheses as it closes. */
  lemma {:induction false} ExprTextShape(e: Expr)
    requires ValidExpr(e)
    ensures var r := ExprText(e);
            |r| > 0 && ';' !in r && '\n' !in r && Lexer.Count(r, '(') == Lexer.Count(r, ')')
  {
    match e
    case Number(lexeme) => TokenTextShape(Lexer.NUMBER, lexeme);
    case Ident(name) => TokenTextShape(Lexer.ID, name);
    case Group(inner) =>
      ExprTextShape(inner);
      GroupBalance(ExprText(inner));
    case Disp(arg) =>
      ExprTextShape(arg);
      DispBalance(ExprText(arg));
  }

  /** Wrapping a text between two others adds their parentheses to its own. */
  lemma WrappedBalance(a: string, t: string, b: string)
    ensures Lexer.Count(a + t + b, '(') == Lexer.Count(a, '(') + Lexer.Count(t, '(') + Lexer.Count(b, '(')
    ensures Lexer.Count(a + t + b, ')') == Lexer.Count(a, ')') + Lexer.Count(t, ')') + Lexer.Count(b, ')')
  {
    Lexer.CountAppend(a + t, b, '(');
    Lexer.CountAppend(a + t, b, ')');
    Lexer.CountAppend(a, t, '(');
    Lexer.CountAppend(a, t, ')');
  }

  lemma GroupBalance(t: string)
    ensures Lexer.Count("(" + t + ")", '(') == Lexer.Count(t, '(') + 1
    ensures Lexer.Count("(" + t + ")", ')') == Lexer.Count(t, ')') + 1
  {
    WrappedBalance("(", t, ")");
  }

  lemma DispBalance(t: string)
    ensures Lexer.Count(DispText(t), '(') == Lexer.Count(t, '(')
    ensures Lexer.Count(DispText(t), ')') == Lexer.Count(t, ')')
  {
    WrappedBalance("cout<<", t, "<<endl");
    Lexer.CountExtremes("cout<<", '(');
    Lexer.CountExtremes("cout<<", ')');
    Lexer.CountExtremes("<<endl", '(');
    Lexer.CountExtremes("<<endl", ')');
  }

  /** A NUMBER or ID lexeme holds no `;`, no line break and no parenthesis. */
  lemma TokenTextShape(k: Lexer.Kind, s: string)
    requires k == Lexer.NUMBER || k == Lexer.ID
    ensures Lexer.Spelled(k, s) ==> |s| > 0 && ';' !in s && '\n' !in s && '(' !in s && ')' !in s
    ensures Lexer.Spelled(k, s) ==> Lexer.Count(s, '(') == 0 == Lexer.Count(s, ')')
  {
    if k == Lexer.ID {
      IdentifierText(s);
    } else {
      NumberText(s);
    }
  }

  lemma IdentifierText(s: string)
    ensures Lexer.IsIdentifier(s) ==> |s| > 0 && ';' !in s && '\n' !in s && '(' !in s && ')' !in s
    ensures Lexer.IsIdentifier(s) ==> Lexer.Count(s, '(') == 0 == Lexer.Count(s, ')')
  {
    if Lexer.IsIdentifier(s) {
      assert forall i :: 0 <= i < |s| ==> Lexer.IsIdentChar(s[i]);
      PlainChars(s);
    }
  }

  lemma NumberText(s: string)
    ensures Lexer.IsNumberLexeme(s) ==> |s| > 0 && ';' !in s && '\n' !in s && '(' !in s && ')' !in s
    ensures Lexer.IsNumberLexeme(s) ==> Lexer.Count(s, '(') == 0 == Lexer.Count(s, ')')
  {
    if Lexer.IsNumberLexeme(s) {
      PlainChars(s);
    }
  }

  /** Letters, digits, `_` and `.` hold none of the characters the
      translator's punctuation is made of. */
  lemma PlainChars(s: string)
    requires |s| > 0
    requires forall i :: 0 <= i < |s| ==> Lexer.IsIdentChar(s[i]) || s[i] == '.'
    ensures ';' !in s && '\n' !in s && '(' !in s && ')' !in s
    ensures Lexer.Count(s, '(') == 0 == Lexer.Count(s, ')')
  {
    Lexer.CountExtremes(s, '(');
    Lexer.CountExtremes(s, ')');
  }

  /** `p_assign` and `p_return_statement`. */
  function StatementText(s: Statement): string {
    match s
    case Assign(target, value) => "auto " + target + " = " + ExprText(value)
    case Return(Some(value)) => "return " + ExprText(value)
    case Return(None) => "return"
  }

  /** The text of a statement built from tokens is never empty and holds no
      `;` and no line break. */
  lemma StatementTextShape(s: Statement)
    requires ValidStatement(s)
    ensures var r := StatementText(s); |r| > 0 && ';' !in r && '\n' !in r
  {
    match s
    case Assign(target, value) =>
      TokenTextShape(Lexer.ID, target);
      ExprTextShape(value);
    case Return(Some(value)) => ExprTextShape(value);
    case Return(None) =>
  }

  /** Every line followed by a line break, in order: the text the loops
      `for line in ...: ... += line + "\n"` append. */
  function Joined(lines: seq<string>): (r: string)
    ensures |lines| > 0 ==> |r| > 0 && r[|r| - 1] == '\n'
  {
    if lines == [] then "" else lines[0] + "\n" + Joined(lines[1..])
  }

  lemma {:induction false} JoinedAppend(a: seq<string>, b: seq<string>)
    ensures Joined(a + b) == Joined(a) + Joined(b)
  {
    if a == [] {
      assert a + b == b;
    } else {
      assert (a + b)[0] == a[0];
      assert (a + b)[1..] == a[1..] + b;
      JoinedAppend(a[1..], b);
    }
  }

  /** The bodies an `if_statement` gets: one arm, or two. */
  datatype Arms = OneArm(thenLines: Option<seq<string>>) | TwoArms(thenLines: Option<seq<string>>, elseLines: Option<seq<string>>)

  /** `p_ifstatement` on the condition's text and the bodies' values. */
  function IfText(cond: string, arms: Arms): (r: Outcome<string>)
    ensures r.Failure? <==> arms.thenLines.None? || (arms.TwoArms? && arms.elseLines.None?)
  {
    if arms.thenLines.None? then Failure(NoneNotIterable)
    else
      match arms
      case OneArm(thenLines) =>
        Success("if( " + cond + "){\n" + Joined(thenLines.value) + "}\n")
      case TwoArms(thenLines, elseLines) =>
        if elseLines.None? then Failure(NoneNotIterable)
        else Success("if( " + cond + "){\n" + Joined(thenLines.value) + "}else{\n" + Joined(elseLines.value) + "}\n")
  }

  /** `p_line`: a statement or expression line gets `;`, an `if_statement`
      line is passed on as it is. */
  function LineText(l: Line): Outcome<string>
    decreases l, 2
  {
    match l
    case StatementLine(s) => Success(StatementText(s) + ";")
    case ExpressionLine(e) => Success(ExprText(e) + ";")
    case IfLine(i) => IfStatementText(i)
  }

  function IfStatementText(i: IfStatement): Outcome<string>
    decreases i, 1
  {
    match i
    case IfThen(cond, thenBody) =>
      (match BodyValue(thenBody)
       case Failure(x) => Failure(x)
       case Success(thenLines) => IfText(ExprText(cond), OneArm(thenLines)))
    case IfElse(cond, thenBody, elseBody) =>
      match BodyValue(thenBody)
      case Failure(x) => Failure(x)
      case Success(thenLines) =>
        match BodyValue(elseBody)
        case Failure(x) => Failure(x)
        case Success(elseLines) => IfText(ExprText(cond), TwoArms(thenLines, elseLines))
  }

  /** `p_body`: the empty body is `None`; `line body` is the line then the
      sub-body's lines, or the line alone when the sub-body is `None`. */
  function BodyValue(b: Body): Outcome<Option<seq<string>>>
    decreases b, 0
  {
    match b
    case EmptyBody => Success(None)
    case LineThen(line, rest) =>
      match LineText(line)
      case Failure(x) => Failure(x)
      case Success(text) =>
        match BodyValue(rest)
        case Failure(x) => Failure(x)
        case Success(None) => Success(Some([text]))
        case Success(Some(texts)) => Success(Some([text] + texts))
  }

  /** The lines of a body, in source order. */
  function Lines(b: Body): seq<Line> {
    match b
    case EmptyBody => []
    case LineThen(line, rest) => [line] + Lines(rest)
  }

  /** `p_function_args`: the arguments' texts in order. */
  function ArgsValue(a: FunctionArgs): seq<string> {
    match a
    case NoArgs => []
    case LastArg(e) => [ExprText(e)]
    case ArgThen(e, rest) => [ExprText(e)] + ArgsValue(rest)
  }

  function ArgList(a: FunctionArgs): seq<Expr> {
    match a
    case NoArgs => []
    case LastArg(e) => [e]
    case ArgThen(e, rest) => [e] + ArgList(rest)
  }

  const Header := "#include <iostream> \n using namespace std;\nint main() {\n"
  const Footer := "return 0; }"

  /** What `p_program` writes: the header, each line followed by a line
      break, the footer, and the line break `write` adds. */
  function ProgramText(body: Option<seq<string>>): (r: string)
    ensures |r| >= |Header| + |Footer| + 1 && r[..|Header|] == Header
    ensures r[|r| - |Footer| - 1..] == Footer + "\n"
  {
    Header + (if body.Some? then Joined(body.value) else "") + Footer + "\n"
  }

  /** The texts of lines that all translate, in order. */
  function LineValues(ls: seq<Line>): (r: seq<string>)
    requires forall i :: 0 <= i < |ls| ==> LineText(ls[i]).Success?
    ensures |r| == |ls| && forall i :: 0 <= i < |ls| ==> Success(r[i]) == LineText(ls[i])
  {
    if ls == [] then [] else [LineText(ls[0]).value] + LineValues(ls[1..])
  }

  /** The whole translation of `program : body`: it raises exactly when a
      line raises, and otherwise is the header, every line's text followed
      by a line break, in source order, the footer and a line break. */
  function Translate(b: Body): (r: Outcome<string>)
    ensures r.Success? <==> forall i :: 0 <= i < |Lines(b)| ==> LineText(Lines(b)[i]).Success?
    ensures r.Success? ==> r.value == Header + Joined(LineValues(Lines(b))) + Footer + "\n"
  {
    BodyRaises(b);
    match BodyValue(b)
    case Failure(x) => Failure(x)
    case Success(lines) => BodyTexts(b); Success(ProgramText(lines))
  }

  /** When every line translates, the body's value lists the texts of its lines. */
  lemma BodyTexts(b: Body)
    requires forall i :: 0 <= i < |Lines(b)| ==> LineText(Lines(b)[i]).Success?
    ensures BodyValue(b).Success?
    ensures (if BodyValue(b).value.Some? then BodyValue(b).value.value else []) == LineValues(Lines(b))
  {
    BodyRaises(b);
    if b == EmptyBody {
      assert Lines(b) == [];
    } else {
      BodyInOrder(b);
    }
  }

  /** The loop of `p_disp`: the argument copied character by character. */
  method DispAction(e: string) returns (r: string)
    ensures r == DispText(e)
  {
    r := "cout<<";
    for i := 0 to |e|
      invariant r == "cout<<" + e[..i]
    {
      assert e[..i + 1] == e[..i] + [e[i]];
      r := r + [e[i]];
    }
    assert e[..|e|] == e;
    r := r + "<<endl";
  }

  /** The appending loop `for l in lines: text += l + "\n"`. */
  method AppendLines(text: string, lines: seq<string>) returns (r: string)
    ensures r == text + Joined(lines)
  {
    r := text;
    for i := 0 to |lines|
      invariant r == text + Joined(lines[..i])
    {
      JoinedStep(text, lines, i);
      r := r + (lines[i] + "\n");
    }
    assert lines[..|lines|] == lines;
  }

  /** One more turn of the appending loop appends one more line. */
  lemma JoinedStep(text: string, lines: seq<string>, i: nat)
    requires i < |lines|
    ensures text + Joined(lines[..i]) + (lines[i] + "\n") == text + Joined(lines[..i + 1])
  {
    JoinedAppend(lines[..i], [lines[i]]);
    assert lines[..i + 1] == lines[..i] + [lines[i]];
    assert Joined([lines[i]]) == lines[i] + "\n";
  }

  /** `p_ifstatement`, with its loops over the bodies' lines; a body whose
      value is `None` raises. */
  method IfStatementAction(cond: string, arms: Arms) returns (r: Outcome<string>)
    ensures r == IfText(cond, arms)
  {
    var text := "if( " + cond + "){\n";
    if arms.thenLines.None? {
      return Failure(NoneNotIterable);
    }
    text := AppendLines(text, arms.thenLines.value);
    match arms
    case OneArm(_) =>
      text := text + "}\n";
      r := Success(text);
    case TwoArms(_, elseLines) =>
      text := text + "}else{\n";
      if elseLines.None? {
        return Failure(NoneNotIterable);
      }
      text := AppendLines(text, elseLines.value);
      text := text + "}\n";
      r := Success(text);
  }

  /** `p_program`, with its loop over the body's lines; answers the text written. */
  method ProgramAction(body: Option<seq<string>>) returns (written: string)
    ensures written == ProgramText(body)
  {
    var output := Header;
    if body.Some? {
      output := AppendLines(output, body.value);
    }
    output := output + Footer;
    written := output + "\n";
  }

  /** `p_body` raises exactly when one of its lines raises. */
  lemma {:induction false} BodyRaises(b: Body)
    ensures BodyValue(b).Success? <==> forall i :: 0 <= i < |Lines(b)| ==> LineText(Lines(b)[i]).Success?
  {
    match b
    case EmptyBody =>
    case LineThen(line, rest) =>
      BodyRaises(rest);
      assert Lines(b) == [line] + Lines(rest);
      if LineText(line).Success? && BodyValue(rest).Failure? {
        var i :| 0 <= i < |Lines(rest)| && LineText(Lines(rest)[i]).Failure?;
        assert Lines(b)[i + 1] == Lines(rest)[i];
      } else if LineText(line).Success? {
        forall i | 0 <= i < |Lines(b)| ensures LineText(Lines(b)[i]).Success? {
          if i == 0 {
            assert Lines(b)[0] == line;
          } else {
            assert Lines(b)[i] == Lines(rest)[i - 1];
            assert LineText(Lines(rest)[i - 1]).Success?;
          }
        }
      } else {
        assert Lines(b)[0] == line;
      }
  }

  /** The value of `p_body` is `None` exactly for the empty body. */
  lemma BodyNone(b: Body)
    ensures BodyValue(b) == Success(None) <==> b == EmptyBody
  {
  }

  /** `p_body` keeps the lines in source order, one text per line. */
  lemma {:induction false} BodyInOrder(b: Body)
    requires BodyValue(b).Success? && b != EmptyBody
    ensures BodyValue(b).value.Some?
    ensures var texts := BodyValue(b).value.value;
            && |texts| == |Lines(b)|
            && forall i :: 0 <= i < |texts| ==> LineText(Lines(b)[i]) == Success(texts[i])
  {
    match b
    case LineThen(line, rest) =>
      var texts := BodyValue(b).value.value;
      assert Lines(b) == [line] + Lines(rest);
      var text := LineText(line).value;
      if rest == EmptyBody {
        assert BodyValue(rest) == Success(None);
        assert texts == [text];
      } else {
        BodyInOrder(rest);
        var more := BodyValue(rest).value.value;
        assert BodyValue(rest) == Success(Some(more));
        assert texts == [text] + more;
        forall i | 0 <= i < |texts| ensures LineText(Lines(b)[i]) == Success(texts[i]) {
          if i > 0 {
            assert texts[i] == more[i - 1] && Lines(b)[i] == Lines(rest)[i - 1];
          }
        }
      }
  }

  /** A statement or expression line built from tokens ends in exactly one
      `;`; an `if_statement` line is passed on unchanged. */
  lemma LineTerminated(l: Line)
    ensures (l.StatementLine? && ValidStatement(l.statement)) || (l.ExpressionLine? && ValidExpr(l.expr)) ==>
              && LineText(l).Success?
              && var r := LineText(l).value;
              && |r| >= 2 && r[|r| - 1] == ';' && ';' !in r[..|r| - 1]
    ensures l.IfLine? ==> LineText(l) == IfStatementText(l.ifStatement)
  {
    match l
    case StatementLine(s) =>
      if ValidStatement(s) {
        StatementTextShape(s);
        var r := LineText(l).value;
        assert r[..|r| - 1] == StatementText(s);
      }
    case ExpressionLine(e) =>
      if ValidExpr(e) {
        ExprTextShape(e);
        var r := LineText(l).value;
        assert r[..|r| - 1] == ExprText(e);
      }
    case IfLine(_) =>
  }

  /** An `if_statement` raises exactly when one of its bodies raises or is empty. */
  lemma IfStatementRaises(i: IfStatement)
    ensures IfStatementText(i).Failure? <==>
              || BodyValue(i.thenBody).Failure? || i.thenBody == EmptyBody
              || (i.IfElse? && (BodyValue(i.elseBody).Failure? || i.elseBody == EmptyBody))
  {
  }

  /** `w` occurs in `s`. */
  predicate Occurs(w: string, s: string) {
    exists i :: 0 <= i <= |s| && w <= s[i..]
  }

  /** No character of `s` is in `w`, so `w` does not occur in `s`. */
  lemma Disjoint(w: string, s: string)
    requires |w| > 0 && forall k :: 0 <= k < |s| ==> s[k] !in w
    ensures !Occurs(w, s)
  {
    forall i | 0 <= i <= |s| ensures !(w <= s[i..]) {
      if i < |s| {
        assert s[i..][0] == s[i] && s[i] !in w;
      }
    }
  }

  /** When the character at the seam is not in `w`, `w` occurs in `a + b`
      exactly when it occurs in `a` or in `b`. */
  lemma OccursConcat(w: string, a: string, b: string)
    requires |w| > 0
    requires (|a| > 0 && a[|a| - 1] !in w) || (|b| > 0 && b[0] !in w)
    ensures Occurs(w, a + b) <==> Occurs(w, a) || Occurs(w, b)
  {
    var s := a + b;
    if Occurs(w, a) {
      var i :| 0 <= i <= |a| && w <= a[i..];
      assert s[i..] == a[i..] + b;
    }
    if Occurs(w, b) {
      var i :| 0 <= i <= |b| && w <= b[i..];
      assert s[|a| + i..] == b[i..];
    }
    if Occurs(w, s) {
      var i :| 0 <= i <= |s| && w <= s[i..];
      if i + |w| <= |a| {
        assert forall k :: 0 <= k < |w| ==> a[i..][k] == s[i..][k];
        assert w <= a[i..];
      } else if i >= |a| {
        assert s[i..] == b[i - |a|..];
      } else {
        NoSeamOccurrence(w, a, b, i);
        assert false;
      }
    }
  }

  /** An occurrence of `w` cannot straddle a seam character that is not in `w`. */
  lemma NoSeamOccurrence(w: string, a: string, b: string, i: nat)
    requires (|a| > 0 && a[|a| - 1] !in w) || (|b| > 0 && b[0] !in w)
    requires i < |a| < i + |w|
    ensures !(w <= (a + b)[i..])
  {
    var s := a + b;
    var k := if a[|a| - 1] !in w then |a| - 1 - i else |a| - i;
    assert s[i..][k] !in w && w[k] in w;
  }

  /** With no line break in `w`, `w` occurs in the joined lines exactly
      when it occurs in one of them. */
  lemma {:induction false} JoinedOccurs(w: string, lines: seq<string>)
    requires |w| > 0 && '\n' !in w
    ensures Occurs(w, Joined(lines)) <==> exists l :: l in lines && Occurs(w, l)
  {
    if lines == [] {
      Disjoint(w, "");
    } else {
      var l := lines[0];
      JoinedOccurs(w, lines[1..]);
      OccursConcat(w, l + "\n", Joined(lines[1..]));
      OccursConcat(w, l, "\n");
      Disjoint(w, "\n");
      assert lines == [l] + lines[1..];
    }
  }

  /** The one-armed `if` contributes no `else` of its own: `else` occurs in
      its text exactly when it occurs in the condition or in a body line. */
  lemma OneArmElseFree(cond: string, lines: seq<string>)
    ensures IfText(cond, OneArm(Some(lines))).Success?
    ensures Occurs("else", IfText(cond, OneArm(Some(lines))).value) <==>
              Occurs("else", cond) || exists l :: l in lines && Occurs("else", l)
  {
    var w := "else";
    var z := "if( " + cond;
    var y := z + "){\n";
    var x := y + Joined(lines);
    assert IfText(cond, OneArm(Some(lines))).value == x + "}\n";
    OccursConcat(w, x, "}\n");
    Disjoint(w, "}\n");
    OccursConcat(w, y, Joined(lines));
    OccursConcat(w, z, "){\n");
    Disjoint(w, "){\n");
    OccursConcat(w, "if( ", cond);
    Disjoint(w, "if( ");
    JoinedOccurs(w, lines);
  }

  /** The two-armed `if` is the one-armed text with `"}else{\n"` and the
      else-lines inserted before the final `"}\n"`. */
  lemma ElseInsertedBeforeClose(cond: string, thenLines: seq<string>, elseLines: seq<string>)
    ensures var one := IfText(cond, OneArm(Some(thenLines)));
            var two := IfText(cond, TwoArms(Some(thenLines), Some(elseLines)));
            && one.Success? && two.Success? && |one.value| >= 2
            && two.value == one.value[..|one.value| - 2] + "}else{\n" + Joined(elseLines) + "}\n"
  {
    var prefix := "if( " + cond + "){\n" + Joined(thenLines);
    var one := IfText(cond, OneArm(Some(thenLines))).value;
    assert one == prefix + "}\n";
    assert one[..|one| - 2] == prefix;
  }

  /** Every assignment line renders as a declaration, `"auto "+id+" = "+e`,
      wherever it stands in a body and whatever came before it. */
  lemma AssignAlwaysDeclares(b: Body, i: nat)
    requires i < |Lines(b)| && Lines(b)[i].StatementLine? && Lines(b)[i].statement.Assign?
    requires BodyValue(b).Success?
    ensures BodyValue(b).value.Some? && i < |BodyValue(b).value.value|
    ensures var a := Lines(b)[i].statement;
            BodyValue(b).value.value[i] == "auto " + a.target + " = " + ExprText(a.value) + ";"
  {
    BodyInOrder(b);
  }

  /** The pieces of an assignment's text, with the target's characters. */
  lemma AssignTextParts(x: string, e: Expr)
    requires Lexer.Spelled(Lexer.ID, x)
    ensures var s := StatementText(Assign(x, e));
            && |s| == 8 + |x| + |ExprText(e)|
            && s[5..5 + |x|] == x && s[5 + |x|] == ' ' && s[8 + |x|..] == ExprText(e)
            && forall k :: 5 <= k < 5 + |x| ==> s[k] != ' '
  {
    var s := StatementText(Assign(x, e));
    assert s == "auto " + x + " = " + ExprText(e);
    forall k | 5 <= k < 5 + |x| ensures s[k] != ' ' {
      assert s[k] == x[k - 5] && Lexer.IsIdentChar(x[k - 5]);
    }
  }

  /** The text of an assignment determines its target and the text of its value. */
  lemma AssignTextDetermines(x1: string, e1: Expr, x2: string, e2: Expr)
    requires Lexer.Spelled(Lexer.ID, x1) && Lexer.Spelled(Lexer.ID, x2)
    requires StatementText(Assign(x1, e1)) == StatementText(Assign(x2, e2))
    ensures x1 == x2 && ExprText(e1) == ExprText(e2)
  {
    AssignTextParts(x1, e1);
    AssignTextParts(x2, e2);
    if |x1| != |x2| {
      assert false;
    }
  }

  /** An empty program writes the header and the footer only, whichever way
      the parser reduces it: `program : empty` hands `p_program` `None`, and
      `program : body` with `body : empty` hands it the empty body's value. */
  lemma EmptyProgram()
    ensures ProgramText(None) == Header + Footer + "\n"
    ensures Translate(EmptyBody) == Success(Header + Footer + "\n")
  {
  }

  /** Line `i` of the body is written, followed by a line break, right
      after the header and the lines before it. */
  lemma ProgramLineAt(lines: seq<string>, i: nat)
    requires i < |lines|
    ensures var k := |Header| + |Joined(lines[..i])|;
            var out := ProgramText(Some(lines));
            k + |lines[i]| + 1 <= |out| && out[k..k + |lines[i]| + 1] == lines[i] + "\n"
  {
    JoinedAt(lines, i);
    var before := Header + Joined(lines[..i]);
    var after := Joined(lines[i + 1..]) + Footer + "\n";
    assert ProgramText(Some(lines)) == before + (lines[i] + "\n") + after;
    Between(before, lines[i] + "\n", after);
  }

  /** The joined lines are those before line `i`, line `i`, and those after. */
  lemma JoinedAt(lines: seq<string>, i: nat)
    requires i < |lines|
    ensures Joined(lines) == Joined(lines[..i]) + (lines[i] + "\n") + Joined(lines[i + 1..])
  {
    var a, c := lines[..i], lines[i + 1..];
    SplitAt(lines, i);
    JoinedAppend(a, [lines[i]] + c);
    JoinedCons(lines[i], c);
    Lexer.ConcatAssoc(Joined(a), lines[i] + "\n", Joined(c));
  }

  /** The lines before line `i`, line `i`, and the lines after. */
  lemma SplitAt(lines: seq<string>, i: nat)
    requires i < |lines|
    ensures lines == lines[..i] + ([lines[i]] + lines[i + 1..])
  {
  }

  /** One line, then others. */
  lemma JoinedCons(l: string, c: seq<string>)
    ensures Joined([l] + c) == (l + "\n") + Joined(c)
  {
    assert ([l] + c)[0] == l && ([l] + c)[1..] == c;
  }

  /** The middle of three strings, found by its offset. */
  lemma Between(a: string, b: string, c: string)
    ensures |a| + |b| <= |a + b + c| && (a + b + c)[|a|..|a| + |b|] == b
  {
  }

  /** `p_function_args` lists the arguments' texts in order, one per argument. */
  lemma {:induction false} ArgsInOrder(a: FunctionArgs)
    ensures |ArgsValue(a)| == |ArgList(a)|
    ensures forall i :: 0 <= i < |ArgList(a)| ==> ArgsValue(a)[i] == ExprText(ArgList(a)[i])
  {
    match a
    case NoArgs =>
    case LastArg(_) =>
    case ArgThen(e, rest) =>
      ArgsInOrder(rest);
      assert forall i :: 1 <= i < |ArgList(a)| ==> ArgList(a)[i] == ArgList(rest)[i - 1];
  }
}
