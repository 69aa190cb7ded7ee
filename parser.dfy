/** The grammar of `main.py`, read by recursive descent.

    The productions are exactly those the file declares:

      program       : body | empty
      body          : line body | empty
      line          : statement SEMICOLON | expression SEMICOLON | if_statement
      if_statement  : IF expression body END | IF expression body ELSE body END
      statement     : ID EQUALS expression | RETURN expression | RETURN
      expression    : NUMBER | ID | LPAREN expression RPAREN
                    | DISP LPAREN expression RPAREN

    One token of lookahead picks every alternative except `ID EQUALS`
    against the expression `ID`, which takes two. Each reader takes the
    terminals still to be read and answers the phrase it read with the
    terminals after it. It looks at token types and at the text of NUMBER
    and ID tokens, and builds the syntax tree the translator renders. */
module Parser {
  import opened Wrappers
  import opened Translator
  import Lexer

  /** What the parser sees of a token: its type and its text. */
  datatype Terminal = Terminal(kind: Lexer.Kind, value: string)

  /** A phrase read, and the terminals after it. */
  datatype Parsed<+T> = Parsed(value: T, rest: seq<Terminal>)

  /** The terminals of a token list, dropping the positions. */
  function Terminals(ts: seq<Lexer.Token>): (r: seq<Terminal>)
    ensures |r| == |ts|
    ensures forall k :: 0 <= k < |ts| ==> r[k] == Terminal(ts[k].kind, ts[k].value)
  {
    if ts == [] then [] else [Terminal(ts[0].kind, ts[0].value)] + Terminals(ts[1..])
  }

  /** The next terminal has type `k`. */
  predicate Next(ts: seq<Terminal>, k: Lexer.Kind) {
    |ts| > 0 && ts[0].kind == k
  }

  /** The token types an `expression` can begin with. */
  predicate StartsExpression(k: Lexer.Kind) {
    k.NUMBER? || k.ID? || k.LPAREN? || k.DISP?
  }

  /** The token types a `line` can begin with. */
  predicate StartsLine(k: Lexer.Kind) {
    StartsExpression(k) || k.RETURN? || k.IF?
  }

  /** Nothing in `ts` can begin another line of a body. */
  predicate EndsBody(ts: seq<Terminal>) {
    ts == [] || !StartsLine(ts[0].kind)
  }

  /** `expression`; `None` is a syntax error. */
  function ParseExpression(ts: seq<Terminal>): (r: Option<Parsed<Expr>>)
    ensures r.Some? ==> |r.value.rest| < |ts|
    decreases |ts|
  {
    if ts == [] then None
    else if ts[0].kind.NUMBER? then Some(Parsed(Number(ts[0].value), ts[1..]))
    else if ts[0].kind.ID? then Some(Parsed(Ident(ts[0].value), ts[1..]))
    else if ts[0].kind.LPAREN? then
      match ParseExpression(ts[1..])
      case None => None
      case Some(p) =>
        if Next(p.rest, Lexer.RPAREN) then Some(Parsed(Group(p.value), p.rest[1..])) else None
    else if ts[0].kind.DISP? then
      if !Next(ts[1..], Lexer.LPAREN) then None
      else
        match ParseExpression(ts[2..])
        case None => None
        case Some(p) =>
          if Next(p.rest, Lexer.RPAREN) then Some(Parsed(Disp(p.value), p.rest[1..])) else None
    else None
  }

  /** `statement`. A `RETURN` not followed by the start of an expression
      is the bare `return`. */
  function ParseStatement(ts: seq<Terminal>): (r: Option<Parsed<Statement>>)
    ensures r.Some? ==> |r.value.rest| < |ts|
  {
    if Next(ts, Lexer.RETURN) then
      if |ts| > 1 && StartsExpression(ts[1].kind) then
        match ParseExpression(ts[1..])
        case None => None
        case Some(p) => Some(Parsed(Return(Some(p.value)), p.rest))
      else Some(Parsed(Return(None), ts[1..]))
    else if Next(ts, Lexer.ID) && Next(ts[1..], Lexer.EQUALS) then
      match ParseExpression(ts[2..])
      case None => None
      case Some(p) => Some(Parsed(Assign(ts[0].value, p.value), p.rest))
    else None
  }

  /** `line`. */
  function ParseLine(ts: seq<Terminal>): (r: Option<Parsed<Line>>)
    ensures r.Some? ==> |r.value.rest| < |ts|
    decreases |ts|, 3
  {
    if Next(ts, Lexer.IF) then
      match ParseIf(ts)
      case None => None
      case Some(p) => Some(Parsed(IfLine(p.value), p.rest))
    else if Next(ts, Lexer.RETURN) || (Next(ts, Lexer.ID) && Next(ts[1..], Lexer.EQUALS)) then
      match ParseStatement(ts)
      case None => None
      case Some(p) =>
        if Next(p.rest, Lexer.SEMICOLON) then Some(Parsed(StatementLine(p.value), p.rest[1..])) else None
    else
      match ParseExpression(ts)
      case None => None
      case Some(p) =>
        if Next(p.rest, Lexer.SEMICOLON) then Some(Parsed(ExpressionLine(p.value), p.rest[1..])) else None
  }

  /** `if_statement`: `IF` and the condition, then the arms. */
  function ParseIf(ts: seq<Terminal>): (r: Option<Parsed<IfStatement>>)
    ensures r.Some? ==> |r.value.rest| < |ts|
    decreases |ts|, 2
  {
    if !Next(ts, Lexer.IF) then None
    else
      match ParseExpression(ts[1..])
      case None => None
      case Some(c) => ParseArms(c.value, c.rest)
  }

  /** The then-body, then the rest of the `if_statement`. */
  function ParseArms(cond: Expr, ts: seq<Terminal>): (r: Option<Parsed<IfStatement>>)
    ensures r.Some? ==> |r.value.rest| < |ts|
    decreases |ts|, 5
  {
    match ParseBody(ts)
    case None => None
    case Some(t) => ParseClose(cond, t.value, t.rest)
  }

  /** After the then-body: `END`, or `ELSE`, the else-body and `END`. */
  function ParseClose(cond: Expr, thenBody: Body, ts: seq<Terminal>): (r: Option<Parsed<IfStatement>>)
    ensures r.Some? ==> |r.value.rest| < |ts|
    decreases |ts|, 0
  {
    if Next(ts, Lexer.END) then Some(Parsed(IfThen(cond, thenBody), ts[1..]))
    else if !Next(ts, Lexer.ELSE) then None
    else
      match ParseBody(ts[1..])
      case None => None
      case Some(e) =>
        if Next(e.rest, Lexer.END) then Some(Parsed(IfElse(cond, thenBody, e.value), e.rest[1..])) else None
  }

  /** `body`: lines for as long as a line can begin. */
  function ParseBody(ts: seq<Terminal>): (r: Option<Parsed<Body>>)
    ensures r.Some? ==> |r.value.rest| <= |ts|
    decreases |ts|, 4
  {
    if |ts| > 0 && StartsLine(ts[0].kind) then
      match ParseLine(ts)
      case None => None
      case Some(l) =>
        match ParseBody(l.rest)
        case None => None
        case Some(b) => Some(Parsed(LineThen(l.value, b.value), b.rest))
    else Some(Parsed(EmptyBody, ts))
  }

  /** A body stops only at the end of the input or before a terminal that
      cannot begin a line. */
  lemma {:induction false} BodyStopsAtNonLine(ts: seq<Terminal>)
    requires ParseBody(ts).Some?
    ensures EndsBody(ParseBody(ts).value.rest)
    decreases |ts|
  {
    if |ts| > 0 && StartsLine(ts[0].kind) {
      BodyStopsAtNonLine(ParseLine(ts).value.rest);
    }
  }

  /** `program : body | empty` over the whole input; `None` is a syntax error.
      Both alternatives give the empty body on an empty input. */
  function ParseProgram(ts: seq<Terminal>): Option<Body> {
    match ParseBody(ts)
    case Some(p) => if p.rest == [] then Some(p.value) else None
    case None => None
  }

  /** The terminals of the token types with one spelling, spelled as the
      scanner spells them. */
  const LParen := Terminal(Lexer.LPAREN, "(")
  const RParen := Terminal(Lexer.RPAREN, ")")
  const DispWord := Terminal(Lexer.DISP, "disp")
  const Becomes := Terminal(Lexer.EQUALS, "=")
  const ReturnWord := Terminal(Lexer.RETURN, "return")
  const Semicolon := Terminal(Lexer.SEMICOLON, ";")
  const IfWord := Terminal(Lexer.IF, "if")
  const ElseWord := Terminal(Lexer.ELSE, "else")
  const EndWord := Terminal(Lexer.END, "end")

  /** The terminals an expression is read from. */
  function ExprTerminals(e: Expr): seq<Terminal> {
    match e
    case Number(s) => [Terminal(Lexer.NUMBER, s)]
    case Ident(x) => [Terminal(Lexer.ID, x)]
    case Group(inner) => [LParen] + ExprTerminals(inner) + [RParen]
    case Disp(arg) => [DispWord, LParen] + ExprTerminals(arg) + [RParen]
  }

  function StatementTerminals(s: Statement): seq<Terminal> {
    match s
    case Assign(x, e) => [Terminal(Lexer.ID, x), Becomes] + ExprTerminals(e)
    case Return(None) => [ReturnWord]
    case Return(Some(e)) => [ReturnWord] + ExprTerminals(e)
  }

  function LineTerminals(l: Line): seq<Terminal>
    decreases l, 2
  {
    match l
    case StatementLine(s) => StatementTerminals(s) + [Semicolon]
    case ExpressionLine(e) => ExprTerminals(e) + [Semicolon]
    case IfLine(i) => IfTerminals(i)
  }

  function IfTerminals(i: IfStatement): seq<Terminal>
    decreases i, 1
  {
    match i
    case IfThen(c, t) =>
      [IfWord] + ExprTerminals(c) + BodyTerminals(t) + [EndWord]
    case IfElse(c, t, e) =>
      [IfWord] + ExprTerminals(c) + BodyTerminals(t) + [ElseWord]
        + BodyTerminals(e) + [EndWord]
  }

  function BodyTerminals(b: Body): seq<Terminal>
    decreases b, 0
  {
    match b
    case EmptyBody => []
    case LineThen(l, rest) => LineTerminals(l) + BodyTerminals(rest)
  }

  /** An expression's terminals begin with a token type that starts an
      expression, and only the lone identifier begins with ID. */
  lemma ExprStart(e: Expr)
    ensures |ExprTerminals(e)| > 0 && StartsExpression(ExprTerminals(e)[0].kind)
    ensures ExprTerminals(e)[0].kind == Lexer.ID ==> ExprTerminals(e) == [Terminal(Lexer.ID, e.name)]
  {
  }

  /** A line's terminals begin with a token type that starts a line. */
  lemma LineStart(l: Line)
    ensures |LineTerminals(l)| > 0 && StartsLine(LineTerminals(l)[0].kind)
  {
    match l
    case StatementLine(s) =>
    case ExpressionLine(e) => ExprStart(e);
    case IfLine(_) =>
  }

  /** Reading an expression's terminals gives the expression back,
      whatever follows them. */
  lemma {:induction false} ExpressionRoundTrip(e: Expr, rest: seq<Terminal>)
    ensures ParseExpression(ExprTerminals(e) + rest) == Some(Parsed(e, rest))
    decreases e, 1
  {
    var ts := ExprTerminals(e) + rest;
    match e
    case Number(_) =>
      assert ts[1..] == rest;
    case Ident(_) =>
      assert ts[1..] == rest;
    case Group(inner) =>
      GroupRoundTrip(inner, rest);
    case Disp(arg) =>
      DispRoundTrip(arg, rest);
  }

  /** The terminals of an enclosed expression, regrouped around what follows the opening. */
  lemma Enclosed(open: seq<Terminal>, e: seq<Terminal>, rest: seq<Terminal>)
    ensures open + e + [RParen] + rest == open + (e + ([RParen] + rest))
    ensures ([RParen] + rest)[1..] == rest
  {
    Lexer.ConcatAssoc(open, e, [RParen]);
    Lexer.ConcatAssoc(open + e, [RParen], rest);
    Lexer.ConcatAssoc(open, e, [RParen] + rest);
  }

  lemma {:induction false} GroupRoundTrip(inner: Expr, rest: seq<Terminal>)
    ensures ParseExpression(ExprTerminals(Group(inner)) + rest) == Some(Parsed(Group(inner), rest))
    decreases Group(inner), 0
  {
    var ts := ExprTerminals(Group(inner)) + rest;
    Enclosed([LParen], ExprTerminals(inner), rest);
    assert ts[0] == LParen && ts[1..] == ExprTerminals(inner) + ([RParen] + rest);
    ExpressionRoundTrip(inner, [RParen] + rest);
  }

  lemma {:induction false} DispRoundTrip(arg: Expr, rest: seq<Terminal>)
    ensures ParseExpression(ExprTerminals(Disp(arg)) + rest) == Some(Parsed(Disp(arg), rest))
    decreases Disp(arg), 0
  {
    var ts := ExprTerminals(Disp(arg)) + rest;
    Enclosed([DispWord, LParen], ExprTerminals(arg), rest);
    assert ts[0] == DispWord && ts[1..][0] == LParen;
    assert ts[2..] == ExprTerminals(arg) + ([RParen] + rest);
    ExpressionRoundTrip(arg, [RParen] + rest);
  }

  /** Reading a statement's terminals gives the statement back, provided
      a bare `return` is not followed by the start of an expression. */
  lemma StatementRoundTrip(s: Statement, rest: seq<Terminal>)
    requires s == Return(None) ==> rest == [] || !StartsExpression(rest[0].kind)
    ensures ParseStatement(StatementTerminals(s) + rest) == Some(Parsed(s, rest))
  {
    match s
    case Assign(x, e) => AssignRoundTrip(x, e, rest);
    case Return(r) => ReturnRoundTrip(r, rest);
  }

  lemma AssignRoundTrip(x: string, e: Expr, rest: seq<Terminal>)
    ensures ParseStatement(StatementTerminals(Assign(x, e)) + rest) == Some(Parsed(Assign(x, e), rest))
  {
    var ts := StatementTerminals(Assign(x, e)) + rest;
    assert ts[0] == Terminal(Lexer.ID, x);
    assert ts[1..][0] == Becomes;
    assert ts[2..] == ExprTerminals(e) + rest;
    ExpressionRoundTrip(e, rest);
  }

  lemma ReturnRoundTrip(r: Option<Expr>, rest: seq<Terminal>)
    requires r == None ==> rest == [] || !StartsExpression(rest[0].kind)
    ensures ParseStatement(StatementTerminals(Return(r)) + rest) == Some(Parsed(Return(r), rest))
  {
    var ts := StatementTerminals(Return(r)) + rest;
    assert ts[0] == ReturnWord;
    match r
    case None =>
      assert ts[1..] == rest;
    case Some(e) =>
      assert ts[1..] == ExprTerminals(e) + rest;
      ExprStart(e);
      assert ts[1] == ExprTerminals(e)[0];
      ExpressionRoundTrip(e, rest);
  }

  /** Reading a line's terminals gives the line back, whatever follows. */
  lemma {:induction false} LineRoundTrip(l: Line, rest: seq<Terminal>)
    ensures ParseLine(LineTerminals(l) + rest) == Some(Parsed(l, rest))
    decreases l, 1
  {
    match l
    case StatementLine(s) => StatementLineRoundTrip(s, rest);
    case ExpressionLine(e) => ExpressionLineRoundTrip(e, rest);
    case IfLine(x) =>
      IfRoundTrip(x, rest);
      assert (LineTerminals(l) + rest)[0] == IfWord;
  }

  lemma StatementLineRoundTrip(s: Statement, rest: seq<Terminal>)
    ensures ParseLine(LineTerminals(StatementLine(s)) + rest) == Some(Parsed(StatementLine(s), rest))
  {
    var ws := StatementTerminals(s);
    var ts := LineTerminals(StatementLine(s)) + rest;
    assert ts == ws + ([Semicolon] + rest);
    assert ws[0] == ts[0];
    if s.Assign? {
      assert ws[1] == ts[1..][0];
    }
    StatementRoundTrip(s, [Semicolon] + rest);
    assert ([Semicolon] + rest)[1..] == rest;
  }

  lemma ExpressionLineRoundTrip(e: Expr, rest: seq<Terminal>)
    ensures ParseLine(LineTerminals(ExpressionLine(e)) + rest) == Some(Parsed(ExpressionLine(e), rest))
  {
    var ws := ExprTerminals(e);
    var ts := LineTerminals(ExpressionLine(e)) + rest;
    assert ts == ws + ([Semicolon] + rest);
    ExprStart(e);
    assert ws[0] == ts[0];
    if e.Ident? {
      assert ts[1..][0] == Semicolon;
    }
    ExpressionRoundTrip(e, [Semicolon] + rest);
    assert ([Semicolon] + rest)[1..] == rest;
  }

  /** Reading an `if_statement`'s terminals gives it back, whatever follows. */
  lemma {:induction false} IfRoundTrip(x: IfStatement, rest: seq<Terminal>)
    ensures ParseIf(IfTerminals(x) + rest) == Some(Parsed(x, rest))
    decreases x, 3
  {
    match x
    case IfThen(c, t) => IfThenRoundTrip(c, t, rest);
    case IfElse(c, t, e) => IfElseRoundTrip(c, t, e, rest);
  }

  lemma {:induction false} IfThenRoundTrip(c: Expr, t: Body, rest: seq<Terminal>)
    ensures ParseIf(IfTerminals(IfThen(c, t)) + rest) == Some(Parsed(IfThen(c, t), rest))
    decreases IfThen(c, t), 2
  {
    var ts := IfTerminals(IfThen(c, t)) + rest;
    var tail := [EndWord] + rest;
    IfThenLayout(c, t, rest);
    assert ts[0] == IfWord;
    assert ts[1..] == ExprTerminals(c) + (BodyTerminals(t) + tail);
    ExpressionRoundTrip(c, BodyTerminals(t) + tail);
    ThenArmsRoundTrip(c, t, rest);
  }

  lemma {:induction false} IfElseRoundTrip(c: Expr, t: Body, e: Body, rest: seq<Terminal>)
    ensures ParseIf(IfTerminals(IfElse(c, t, e)) + rest) == Some(Parsed(IfElse(c, t, e), rest))
    decreases IfElse(c, t, e), 2
  {
    var ts := IfTerminals(IfElse(c, t, e)) + rest;
    var close := [ElseWord] + (BodyTerminals(e) + ([EndWord] + rest));
    IfElseLayout(c, t, e, rest);
    assert ts[0] == IfWord;
    assert ts[1..] == ExprTerminals(c) + (BodyTerminals(t) + close);
    ExpressionRoundTrip(c, BodyTerminals(t) + close);
    ElseArmsRoundTrip(c, t, e, rest);
  }

  /** A one-armed `if_statement`'s terminals, grouped the way the parser reads them. */
  lemma IfThenLayout(c: Expr, t: Body, rest: seq<Terminal>)
    ensures IfTerminals(IfThen(c, t)) + rest
              == [IfWord] + (ExprTerminals(c) + (BodyTerminals(t) + ([EndWord] + rest)))
  {
    var cs, bs := ExprTerminals(c), BodyTerminals(t);
    Lexer.ConcatAssoc([IfWord] + cs + bs, [EndWord], rest);
    Lexer.ConcatAssoc([IfWord] + cs, bs, [EndWord] + rest);
    Lexer.ConcatAssoc([IfWord], cs, bs + ([EndWord] + rest));
  }

  /** A two-armed `if_statement`'s terminals, grouped the way the parser reads them. */
  lemma IfElseLayout(c: Expr, t: Body, e: Body, rest: seq<Terminal>)
    ensures IfTerminals(IfElse(c, t, e)) + rest
              == [IfWord] + (ExprTerminals(c) + (BodyTerminals(t) + ([ElseWord] + (BodyTerminals(e) + ([EndWord] + rest)))))
  {
    var cs, bs, es := ExprTerminals(c), BodyTerminals(t), BodyTerminals(e);
    var tail := [EndWord] + rest;
    Lexer.ConcatAssoc([IfWord] + cs + bs + [ElseWord] + es, [EndWord], rest);
    Lexer.ConcatAssoc([IfWord] + cs + bs + [ElseWord], es, tail);
    Lexer.ConcatAssoc([IfWord] + cs + bs, [ElseWord], es + tail);
    Lexer.ConcatAssoc([IfWord] + cs, bs, [ElseWord] + (es + tail));
    Lexer.ConcatAssoc([IfWord], cs, bs + ([ElseWord] + (es + tail)));
  }

  /** The then-body's terminals and `END`. */
  lemma {:induction false} ThenArmsRoundTrip(c: Expr, t: Body, rest: seq<Terminal>)
    ensures ParseArms(c, BodyTerminals(t) + ([EndWord] + rest)) == Some(Parsed(IfThen(c, t), rest))
    decreases IfThen(c, t), 1
  {
    var tail := [EndWord] + rest;
    assert tail[0] == EndWord;
    BodyRoundTrip(t, tail);
    assert tail[1..] == rest;
  }

  /** The then-body's terminals, `ELSE`, the else-body's terminals and `END`. */
  lemma {:induction false} ElseArmsRoundTrip(c: Expr, t: Body, e: Body, rest: seq<Terminal>)
    ensures ParseArms(c, BodyTerminals(t) + ([ElseWord] + (BodyTerminals(e) + ([EndWord] + rest))))
              == Some(Parsed(IfElse(c, t, e), rest))
    decreases IfElse(c, t, e), 1
  {
    var close := [ElseWord] + (BodyTerminals(e) + ([EndWord] + rest));
    assert close[0] == ElseWord;
    BodyRoundTrip(t, close);
    CloseElseRoundTrip(c, t, e, rest);
  }

  /** After the then-body: `ELSE`, the else-body's terminals and `END`. */
  lemma {:induction false} CloseElseRoundTrip(c: Expr, t: Body, e: Body, rest: seq<Terminal>)
    ensures ParseClose(c, t, [ElseWord] + (BodyTerminals(e) + ([EndWord] + rest)))
              == Some(Parsed(IfElse(c, t, e), rest))
    decreases IfElse(c, t, e), 0
  {
    var tail := [EndWord] + rest;
    var close := [ElseWord] + (BodyTerminals(e) + tail);
    assert close[0] == ElseWord;
    assert close[1..] == BodyTerminals(e) + tail;
    assert tail[0] == EndWord;
    BodyRoundTrip(e, tail);
    assert tail[1..] == rest;
  }

  /** Reading a body's terminals gives the body back, when what follows
      cannot begin a line. */
  lemma {:induction false} BodyRoundTrip(b: Body, rest: seq<Terminal>)
    requires EndsBody(rest)
    ensures ParseBody(BodyTerminals(b) + rest) == Some(Parsed(b, rest))
    decreases b, 2
  {
    match b
    case EmptyBody =>
      assert BodyTerminals(b) + rest == rest;
    case LineThen(l, more) =>
      var ts := BodyTerminals(b) + rest;
      assert ts == LineTerminals(l) + (BodyTerminals(more) + rest);
      LineStart(l);
      assert ts[0] == LineTerminals(l)[0];
      LineRoundTrip(l, BodyTerminals(more) + rest);
      BodyRoundTrip(more, rest);
  }

  /** Every body is read back from its own terminals as a whole program. */
  lemma ProgramRoundTrip(b: Body)
    ensures ParseProgram(BodyTerminals(b)) == Some(b)
  {
    BodyRoundTrip(b, []);
    assert BodyTerminals(b) + [] == BodyTerminals(b);
  }

  /** Every terminal is spelled as the scanner spells its type: the
      fixed-text types carry their one spelling. */
  predicate Canonical(ts: seq<Terminal>) {
    ts == [] || (Lexer.Spelled(ts[0].kind, ts[0].value) && Canonical(ts[1..]))
  }

  /** Tokens whose texts are spelled as their types require give
      canonical terminals. */
  lemma {:induction false} SpelledCanonical(ts: seq<Lexer.Token>)
    requires forall t <- ts :: Lexer.Spelled(t.kind, t.value)
    ensures Canonical(Terminals(ts))
  {
    if ts != [] {
      assert ts[0] in ts;
      assert forall t <- ts[1..] :: t in ts;
      SpelledCanonical(ts[1..]);
      var r := Terminals(ts);
      assert r[0] == Terminal(ts[0].kind, ts[0].value);
      assert r[1..] == Terminals(ts[1..]);
    }
  }

  /** The scanner's tokens are canonical terminals. */
  lemma LexedCanonical(d: string)
    ensures Canonical(Terminals(Lexer.Lex(d, 0, 1).tokens))
  {
    Lexer.LexemesVerbatim(d, 0, 1);
    SpelledCanonical(Lexer.Lex(d, 0, 1).tokens);
  }

  lemma {:induction false} CanonicalSplit(a: seq<Terminal>, b: seq<Terminal>)
    requires Canonical(a + b)
    ensures Canonical(a) && Canonical(b)
    decreases |a|
  {
    if a == [] {
      assert a + b == b;
    } else {
      assert (a + b)[0] == a[0] && (a + b)[1..] == a[1..] + b;
      CanonicalSplit(a[1..], b);
    }
  }

  /** A canonical terminal of a fixed-text type is that type's one spelling. */
  lemma Fixed(ts: seq<Terminal>)
    requires Canonical(ts) && |ts| > 0
    ensures ts[0].kind == Lexer.LPAREN ==> ts[0] == LParen
    ensures ts[0].kind == Lexer.RPAREN ==> ts[0] == RParen
    ensures ts[0].kind == Lexer.DISP ==> ts[0] == DispWord
    ensures ts[0].kind == Lexer.EQUALS ==> ts[0] == Becomes
    ensures ts[0].kind == Lexer.RETURN ==> ts[0] == ReturnWord
    ensures ts[0].kind == Lexer.SEMICOLON ==> ts[0] == Semicolon
    ensures ts[0].kind == Lexer.IF ==> ts[0] == IfWord
    ensures ts[0].kind == Lexer.ELSE ==> ts[0] == ElseWord
    ensures ts[0].kind == Lexer.END ==> ts[0] == EndWord
  {
    var t := ts[0];
    assert Lexer.Spelled(t.kind, t.value);
    if Lexer.FixedText(t.kind).Some? {
      Lexer.FixedSpelled(t.kind, t.value);
    }
  }

  /** The first terminal, then the others. */
  lemma Unfold(ts: seq<Terminal>)
    requires |ts| > 0
    ensures ts == [ts[0]] + ts[1..]
    ensures Canonical(ts) ==> Canonical(ts[1..])
  {
  }

  /** Terminals opened by `open`, then `e`, then a closing parenthesis. */
  lemma Closed(open: seq<Terminal>, e: seq<Terminal>, r: seq<Terminal>)
    requires |r| > 0 && r[0] == RParen
    ensures open + (e + r) == open + e + [RParen] + r[1..]
  {
    assert r == [RParen] + r[1..];
    Lexer.ConcatAssoc(e, [RParen], r[1..]);
    Lexer.ConcatAssoc(open, e, [RParen] + r[1..]);
    Lexer.ConcatAssoc(open + e, [RParen], r[1..]);
  }

  /** What an expression was read from is its terminals: on canonical
      terminals the parser reads back exactly what the printer writes. */
  lemma {:induction false} ExpressionPrinted(ts: seq<Terminal>)
    requires Canonical(ts) && ParseExpression(ts).Some?
    ensures ts == ExprTerminals(ParseExpression(ts).value.value) + ParseExpression(ts).value.rest
    decreases |ts|, 1
  {
    Unfold(ts);
    if ts[0].kind.LPAREN? {
      GroupPrinted(ts);
    } else if ts[0].kind.DISP? {
      DispPrinted(ts);
    }
  }

  lemma {:induction false} GroupPrinted(ts: seq<Terminal>)
    requires Canonical(ts) && Next(ts, Lexer.LPAREN) && ParseExpression(ts).Some?
    ensures ts == ExprTerminals(ParseExpression(ts).value.value) + ParseExpression(ts).value.rest
    decreases |ts|, 0
  {
    Unfold(ts);
    Fixed(ts);
    var p := ParseExpression(ts[1..]).value;
    assert ParseExpression(ts) == Some(Parsed(Group(p.value), p.rest[1..]));
    ExpressionPrinted(ts[1..]);
    CanonicalSplit(ExprTerminals(p.value), p.rest);
    Fixed(p.rest);
    Closed([LParen], ExprTerminals(p.value), p.rest);
  }

  lemma {:induction false} DispPrinted(ts: seq<Terminal>)
    requires Canonical(ts) && Next(ts, Lexer.DISP) && ParseExpression(ts).Some?
    ensures ts == ExprTerminals(ParseExpression(ts).value.value) + ParseExpression(ts).value.rest
    decreases |ts|, 0
  {
    assert Next(ts[1..], Lexer.LPAREN);
    DispOpened(ts);
    var p := ParseExpression(ts[2..]).value;
    assert ParseExpression(ts) == Some(Parsed(Disp(p.value), p.rest[1..]));
    ExpressionPrinted(ts[2..]);
    CanonicalSplit(ExprTerminals(p.value), p.rest);
    Fixed(p.rest);
    Closed([DispWord, LParen], ExprTerminals(p.value), p.rest);
  }

  /** Canonical terminals that open a `disp` call are its two spellings. */
  lemma DispOpened(ts: seq<Terminal>)
    requires Canonical(ts) && Next(ts, Lexer.DISP) && Next(ts[1..], Lexer.LPAREN)
    ensures ts == [DispWord, LParen] + ts[2..] && Canonical(ts[2..])
  {
    Unfold(ts);
    Fixed(ts);
    Unfold(ts[1..]);
    Fixed(ts[1..]);
    assert ts[1..][1..] == ts[2..];
  }

  /** Terminals `s`, then a semicolon. */
  lemma Terminated(s: seq<Terminal>, r: seq<Terminal>)
    requires |r| > 0 && r[0] == Semicolon
    ensures s + r == s + [Semicolon] + r[1..]
  {
    assert r == [Semicolon] + r[1..];
    Lexer.ConcatAssoc(s, [Semicolon], r[1..]);
  }

  /** What a statement was read from is its terminals. */
  lemma StatementPrinted(ts: seq<Terminal>)
    requires Canonical(ts) && ParseStatement(ts).Some?
    ensures ts == StatementTerminals(ParseStatement(ts).value.value) + ParseStatement(ts).value.rest
  {
    if Next(ts, Lexer.RETURN) {
      ReturnPrinted(ts);
    } else {
      AssignPrinted(ts);
    }
  }

  lemma ReturnPrinted(ts: seq<Terminal>)
    requires Canonical(ts) && Next(ts, Lexer.RETURN) && ParseStatement(ts).Some?
    ensures ts == StatementTerminals(ParseStatement(ts).value.value) + ParseStatement(ts).value.rest
  {
    Unfold(ts);
    Fixed(ts);
    if |ts| > 1 && StartsExpression(ts[1].kind) {
      var q := ParseExpression(ts[1..]).value;
      ExpressionPrinted(ts[1..]);
      Lexer.ConcatAssoc([ReturnWord], ExprTerminals(q.value), q.rest);
    }
  }

  lemma AssignPrinted(ts: seq<Terminal>)
    requires Canonical(ts) && !Next(ts, Lexer.RETURN) && ParseStatement(ts).Some?
    ensures ts == StatementTerminals(ParseStatement(ts).value.value) + ParseStatement(ts).value.rest
  {
    Unfold(ts);
    Unfold(ts[1..]);
    Fixed(ts[1..]);
    assert ts[1..][1..] == ts[2..];
    assert ts == [Terminal(Lexer.ID, ts[0].value), Becomes] + ts[2..];
    var q := ParseExpression(ts[2..]).value;
    ExpressionPrinted(ts[2..]);
    Lexer.ConcatAssoc([Terminal(Lexer.ID, ts[0].value), Becomes], ExprTerminals(q.value), q.rest);
  }

  /** What a line was read from is its terminals. */
  lemma {:induction false} LinePrinted(ts: seq<Terminal>)
    requires Canonical(ts) && ParseLine(ts).Some?
    ensures ts == LineTerminals(ParseLine(ts).value.value) + ParseLine(ts).value.rest
    decreases |ts|, 3
  {
    if Next(ts, Lexer.IF) {
      IfPrinted(ts);
    } else if Next(ts, Lexer.RETURN) || (Next(ts, Lexer.ID) && Next(ts[1..], Lexer.EQUALS)) {
      StatementLinePrinted(ts);
    } else {
      ExpressionLinePrinted(ts);
    }
  }

  lemma StatementLinePrinted(ts: seq<Terminal>)
    requires Canonical(ts) && ParseLine(ts).Some? && !Next(ts, Lexer.IF)
    requires Next(ts, Lexer.RETURN) || (Next(ts, Lexer.ID) && Next(ts[1..], Lexer.EQUALS))
    ensures ts == LineTerminals(ParseLine(ts).value.value) + ParseLine(ts).value.rest
  {
    var q := ParseStatement(ts).value;
    assert ParseLine(ts) == Some(Parsed(StatementLine(q.value), q.rest[1..]));
    StatementPrinted(ts);
    CanonicalSplit(StatementTerminals(q.value), q.rest);
    Fixed(q.rest);
    Terminated(StatementTerminals(q.value), q.rest);
  }

  lemma ExpressionLinePrinted(ts: seq<Terminal>)
    requires Canonical(ts) && ParseLine(ts).Some? && !Next(ts, Lexer.IF)
    requires !(Next(ts, Lexer.RETURN) || (Next(ts, Lexer.ID) && Next(ts[1..], Lexer.EQUALS)))
    ensures ts == LineTerminals(ParseLine(ts).value.value) + ParseLine(ts).value.rest
  {
    var q := ParseExpression(ts).value;
    assert ParseLine(ts) == Some(Parsed(ExpressionLine(q.value), q.rest[1..]));
    ExpressionPrinted(ts);
    CanonicalSplit(ExprTerminals(q.value), q.rest);
    Fixed(q.rest);
    Terminated(ExprTerminals(q.value), q.rest);
  }

  /** What an `if_statement` was read from is its terminals. */
  lemma {:induction false} IfPrinted(ts: seq<Terminal>)
    requires Canonical(ts) && ParseIf(ts).Some?
    ensures ts == IfTerminals(ParseIf(ts).value.value) + ParseIf(ts).value.rest
    decreases |ts|, 2
  {
    Unfold(ts);
    Fixed(ts);
    var c := ParseExpression(ts[1..]).value;
    assert ParseIf(ts) == ParseArms(c.value, c.rest);
    ExpressionPrinted(ts[1..]);
    CanonicalSplit(ExprTerminals(c.value), c.rest);
    ArmsPrinted(c.value, c.rest);
    Lexer.ConcatAssoc([IfWord], ExprTerminals(c.value), c.rest);
  }

  /** What the arms were read from, after `IF` and the condition, completes
      the `if_statement`'s terminals. */
  lemma {:induction false} ArmsPrinted(cond: Expr, ts: seq<Terminal>)
    requires Canonical(ts) && ParseArms(cond, ts).Some?
    ensures var p := ParseArms(cond, ts).value;
            p.value.cond == cond && [IfWord] + ExprTerminals(cond) + ts == IfTerminals(p.value) + p.rest
    decreases |ts|, 5
  {
    var t := ParseBody(ts).value;
    assert ParseArms(cond, ts) == ParseClose(cond, t.value, t.rest);
    BodyPrinted(ts);
    CanonicalSplit(BodyTerminals(t.value), t.rest);
    ClosePrinted(cond, t.value, t.rest);
    Lexer.ConcatAssoc([IfWord] + ExprTerminals(cond), BodyTerminals(t.value), t.rest);
  }

  /** What follows the then-body completes the `if_statement`'s terminals. */
  lemma {:induction false} ClosePrinted(cond: Expr, thenBody: Body, ts: seq<Terminal>)
    requires Canonical(ts) && ParseClose(cond, thenBody, ts).Some?
    ensures var p := ParseClose(cond, thenBody, ts).value;
            && p.value.cond == cond && p.value.thenBody == thenBody
            && [IfWord] + ExprTerminals(cond) + BodyTerminals(thenBody) + ts == IfTerminals(p.value) + p.rest
    decreases |ts|, 1
  {
    if Next(ts, Lexer.END) {
      CloseEndPrinted(cond, thenBody, ts);
    } else {
      CloseElsePrinted(cond, thenBody, ts);
    }
  }

  lemma CloseEndPrinted(cond: Expr, thenBody: Body, ts: seq<Terminal>)
    requires Canonical(ts) && Next(ts, Lexer.END)
    ensures ParseClose(cond, thenBody, ts) == Some(Parsed(IfThen(cond, thenBody), ts[1..]))
    ensures [IfWord] + ExprTerminals(cond) + BodyTerminals(thenBody) + ts
              == IfTerminals(IfThen(cond, thenBody)) + ts[1..]
  {
    Unfold(ts);
    Fixed(ts);
    Lexer.ConcatAssoc([IfWord] + ExprTerminals(cond) + BodyTerminals(thenBody), [EndWord], ts[1..]);
  }

  lemma {:induction false} CloseElsePrinted(cond: Expr, thenBody: Body, ts: seq<Terminal>)
    requires Canonical(ts) && !Next(ts, Lexer.END) && ParseClose(cond, thenBody, ts).Some?
    ensures var p := ParseClose(cond, thenBody, ts).value;
            && p.value.cond == cond && p.value.thenBody == thenBody
            && [IfWord] + ExprTerminals(cond) + BodyTerminals(thenBody) + ts == IfTerminals(p.value) + p.rest
    decreases |ts|, 0
  {
    Unfold(ts);
    Fixed(ts);
    var e := ParseBody(ts[1..]).value;
    var x := IfElse(cond, thenBody, e.value);
    assert ParseClose(cond, thenBody, ts) == Some(Parsed(x, e.rest[1..]));
    BodyPrinted(ts[1..]);
    CanonicalSplit(BodyTerminals(e.value), e.rest);
    Fixed(e.rest);
    var h := [IfWord] + ExprTerminals(cond) + BodyTerminals(thenBody);
    ElseClosed(h, ts, BodyTerminals(e.value), e.rest);
    assert IfTerminals(x) == h + [ElseWord] + BodyTerminals(e.value) + [EndWord];
  }

  /** `ELSE`, the else-body's terminals, then `END`. */
  lemma ElseClosed(h: seq<Terminal>, ts: seq<Terminal>, es: seq<Terminal>, r: seq<Terminal>)
    requires ts == [ElseWord] + (es + r) && |r| > 0 && r[0] == EndWord
    ensures h + ts == h + [ElseWord] + es + [EndWord] + r[1..]
  {
    assert r == [EndWord] + r[1..];
    Lexer.ConcatAssoc(es, [EndWord], r[1..]);
    Lexer.ConcatAssoc([ElseWord], es + [EndWord], r[1..]);
    Lexer.ConcatAssoc([ElseWord], es, [EndWord]);
    Lexer.ConcatAssoc(h, [ElseWord] + es + [EndWord], r[1..]);
    Lexer.ConcatAssoc(h, [ElseWord] + es, [EndWord]);
    Lexer.ConcatAssoc(h, [ElseWord], es);
  }

  /** What a body was read from is its terminals. */
  lemma {:induction false} BodyPrinted(ts: seq<Terminal>)
    requires Canonical(ts) && ParseBody(ts).Some?
    ensures ts == BodyTerminals(ParseBody(ts).value.value) + ParseBody(ts).value.rest
    decreases |ts|, 4
  {
    if |ts| > 0 && StartsLine(ts[0].kind) {
      var l := ParseLine(ts).value;
      LinePrinted(ts);
      CanonicalSplit(LineTerminals(l.value), l.rest);
      var b := ParseBody(l.rest).value;
      BodyPrinted(l.rest);
      Lexer.ConcatAssoc(LineTerminals(l.value), BodyTerminals(b.value), b.rest);
    } else {
      assert ts == [] + ts;
    }
  }

  /** On canonical terminals the program reader and the printer are
      inverse: the terminals read as a body exactly when they are that
      body's terminals. */
  lemma ProgramInverse(ts: seq<Terminal>, b: Body)
    requires Canonical(ts)
    ensures ParseProgram(ts) == Some(b) <==> ts == BodyTerminals(b)
  {
    if ParseProgram(ts) == Some(b) {
      BodyPrinted(ts);
      assert ts == BodyTerminals(b) + [];
    }
    if ts == BodyTerminals(b) {
      ProgramRoundTrip(b);
    }
  }
}
