/** The script's top level: scan the input, parse the tokens as a
    `program`, and write what `p_program` produces. */
module Pipeline {
  import opened Wrappers
  import opened Translator
  import opened Parser
  import Lexer

  /** The terminals the parser reads from `source`. */
  function SourceTerminals(source: string): seq<Terminal> {
    Terminals(Lexer.Lex(source, 0, 1).tokens)
  }

  /** The whole run on `source`: `None` is a syntax error, `Some(Failure(_))`
      an action that raised, `Some(Success(text))` the text written. The
      input is accepted exactly when its tokens are the terminals of some
      syntax tree, and the run then translates that tree. */
  function Run(source: string): (r: Option<Outcome<string>>)
    ensures r.Some? <==> exists b :: SourceTerminals(source) == BodyTerminals(b)
    ensures forall b :: SourceTerminals(source) == BodyTerminals(b) ==> r == Some(Translate(b))
  {
    LexedCanonical(source);
    ProgramReads(SourceTerminals(source));
    match ParseProgram(SourceTerminals(source))
    case None => None
    case Some(b) => Some(Translate(b))
  }

  /** Canonical terminals are read as a program exactly when they are the
      terminals of a body, and then as that body. */
  lemma ProgramReads(ts: seq<Terminal>)
    requires Canonical(ts)
    ensures ParseProgram(ts).Some? <==> exists b :: ts == BodyTerminals(b)
    ensures forall b :: ts == BodyTerminals(b) ==> ParseProgram(ts) == Some(b)
  {
    forall b | ts == BodyTerminals(b)
      ensures ParseProgram(ts) == Some(b)
    {
      ProgramInverse(ts, b);
    }
    if ParseProgram(ts).Some? {
      ProgramInverse(ts, ParseProgram(ts).value);
    }
  }

  /** Every line of a body, with the lines of the bodies of its `if`
      statements, at any depth. */
  function AllLines(b: Body): seq<Line>
    decreases b, 1
  {
    match b
    case EmptyBody => []
    case LineThen(l, rest) => [l] + NestedLines(l) + AllLines(rest)
  }

  function NestedLines(l: Line): seq<Line>
    decreases l, 0
  {
    match l
    case IfLine(IfThen(_, t)) => AllLines(t)
    case IfLine(IfElse(_, t, e)) => AllLines(t) + AllLines(e)
    case _ => []
  }

  /** A statement or expression line whose lexemes the scanner can produce. */
  predicate LineValid(l: Line) {
    && (l.StatementLine? ==> ValidStatement(l.statement))
    && (l.ExpressionLine? ==> ValidExpr(l.expr))
  }

  /** An expression read from canonical terminals carries lexemes the scanner can produce. */
  lemma {:induction false} ExprValid(e: Expr)
    requires Canonical(ExprTerminals(e))
    ensures ValidExpr(e)
  {
    match e
    case Number(_) =>
    case Ident(_) =>
    case Group(inner) =>
      CanonicalSplit([LParen] + ExprTerminals(inner), [RParen]);
      CanonicalSplit([LParen], ExprTerminals(inner));
      ExprValid(inner);
    case Disp(arg) =>
      CanonicalSplit([DispWord, LParen] + ExprTerminals(arg), [RParen]);
      CanonicalSplit([DispWord, LParen], ExprTerminals(arg));
      ExprValid(arg);
  }

  lemma StatementValid(s: Statement)
    requires Canonical(StatementTerminals(s))
    ensures ValidStatement(s)
  {
    match s
    case Assign(x, e) =>
      CanonicalSplit([Terminal(Lexer.ID, x), Becomes], ExprTerminals(e));
      ExprValid(e);
    case Return(Some(e)) =>
      CanonicalSplit([ReturnWord], ExprTerminals(e));
      ExprValid(e);
    case Return(None) =>
  }

  /** The statement and expression lines of a body read from canonical
      terminals, at any depth, carry lexemes the scanner can produce. */
  lemma {:induction false} LinesValid(b: Body)
    requires Canonical(BodyTerminals(b))
    ensures forall l <- AllLines(b) :: LineValid(l)
    decreases b, 1
  {
    match b
    case EmptyBody =>
    case LineThen(l, rest) =>
      CanonicalSplit(LineTerminals(l), BodyTerminals(rest));
      LinesValid(rest);
      NestedValid(l);
      match l
      case StatementLine(s) =>
        CanonicalSplit(StatementTerminals(s), [Semicolon]);
        StatementValid(s);
      case ExpressionLine(e) =>
        CanonicalSplit(ExprTerminals(e), [Semicolon]);
        ExprValid(e);
      case IfLine(_) =>
  }

  lemma {:induction false} NestedValid(l: Line)
    requires Canonical(LineTerminals(l))
    ensures forall n <- NestedLines(l) :: LineValid(n)
    decreases l, 0
  {
    if l.IfLine? {
      assert LineTerminals(l) == IfTerminals(l.ifStatement);
      IfValid(l.ifStatement);
    }
  }

  lemma {:induction false} IfValid(i: IfStatement)
    requires Canonical(IfTerminals(i))
    ensures forall n <- AllLines(i.thenBody) :: LineValid(n)
    ensures i.IfElse? ==> forall n <- AllLines(i.elseBody) :: LineValid(n)
    decreases i, 0
  {
    var lead := [IfWord] + ExprTerminals(i.cond);
    match i
    case IfThen(_, t) =>
      CanonicalSplit(lead + BodyTerminals(t), [EndWord]);
      CanonicalSplit(lead, BodyTerminals(t));
      LinesValid(t);
    case IfElse(_, t, e) =>
      var head := lead + BodyTerminals(t) + [ElseWord];
      CanonicalSplit(head + BodyTerminals(e), [EndWord]);
      CanonicalSplit(head, BodyTerminals(e));
      CanonicalSplit(lead + BodyTerminals(t), [ElseWord]);
      CanonicalSplit(lead, BodyTerminals(t));
      LinesValid(t);
      LinesValid(e);
  }

  /** Every statement or expression line of an accepted program, at any
      depth, is written with exactly one `;`, at its end. */
  lemma AcceptedLinesTerminated(source: string, b: Body)
    requires ParseProgram(SourceTerminals(source)) == Some(b)
    ensures forall l <- AllLines(b) :: !l.IfLine? ==>
              && LineText(l).Success?
              && var r := LineText(l).value;
              && |r| >= 2 && r[|r| - 1] == ';' && ';' !in r[..|r| - 1]
  {
    LexedCanonical(source);
    ProgramInverse(SourceTerminals(source), b);
    LinesValid(b);
    forall l <- AllLines(b) | !l.IfLine?
      ensures LineText(l).Success? && var r := LineText(l).value;
              |r| >= 2 && r[|r| - 1] == ';' && ';' !in r[..|r| - 1]
    {
      LineTerminated(l);
    }
  }
}
