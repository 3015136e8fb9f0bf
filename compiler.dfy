/**
 * compiler.c: a single-pass Pratt compiler from an expression to bytecode.
 *
 * The C globals `parser` and `compilingChunk` become the `Parser` class: its
 * fields are the two tokens of look-behind and look-ahead, the error flags,
 * the scanner it pulls tokens from and the chunk it writes to. What the C
 * code prints on stderr is appended to `diagnostics`.
 *
 * The table of parse rules is a pure function. Each parsing method is proved
 * against two kinds of specification: the token and error state it leaves is
 * the pure function `Scan`/`Report` of the state it found, and, when no error
 * was reported, the bytes it appended are well formed stack code that pushes
 * exactly one value (`StackAfter`).
 */
module Compiler {
  import opened Wrappers
  import opened Lexer
  import Values
  import opened Chunks

  // ---------------------------------------------------------------------------
  // Precedence levels and the rules table

  /** `Precedence`, lowest first. */
  newtype Precedence = p: int | 0 <= p <= 10

  const PrecNone: Precedence := 0
  const PrecAssignment: Precedence := 1
  const PrecOr: Precedence := 2
  const PrecAnd: Precedence := 3
  const PrecEquality: Precedence := 4
  const PrecComparison: Precedence := 5
  const PrecTerm: Precedence := 6
  const PrecFactor: Precedence := 7
  const PrecUnary: Precedence := 8
  const PrecCall: Precedence := 9
  const PrecPrimary: Precedence := 10

  /** The parse functions a rule can point to; `NoFn` is the NULL pointer. */
  datatype ParseFn = NoFn | GroupingFn | UnaryFn | BinaryFn | NumberFn | LiteralFn

  datatype ParseRule = ParseRule(prefix: ParseFn, infix: ParseFn, precedence: Precedence)

  /** `getRule`: the entry of the `rules` table for a token type. */
  function GetRule(kind: TokenType): (r: ParseRule)
    ensures r.precedence < PrecUnary
    ensures r.infix != NoFn ==> r.infix == BinaryFn
    ensures r.precedence != PrecNone ==> r.infix == BinaryFn
  {
    match kind
    case LeftParen => ParseRule(GroupingFn, NoFn, PrecNone)
    case Minus => ParseRule(UnaryFn, BinaryFn, PrecTerm)
    case Plus => ParseRule(NoFn, BinaryFn, PrecTerm)
    case Slash => ParseRule(NoFn, BinaryFn, PrecFactor)
    case Star => ParseRule(NoFn, BinaryFn, PrecFactor)
    case Bang => ParseRule(UnaryFn, NoFn, PrecNone)
    case BangEqual => ParseRule(NoFn, BinaryFn, PrecNone)
    case EqualEqual => ParseRule(NoFn, BinaryFn, PrecEquality)
    case Greater => ParseRule(NoFn, BinaryFn, PrecComparison)
    case GreaterEqual => ParseRule(NoFn, BinaryFn, PrecComparison)
    case Less => ParseRule(NoFn, BinaryFn, PrecComparison)
    case LessEqual => ParseRule(NoFn, BinaryFn, PrecComparison)
    case Number => ParseRule(NumberFn, NoFn, PrecNone)
    case False => ParseRule(LiteralFn, NoFn, PrecNone)
    case Nil => ParseRule(LiteralFn, NoFn, PrecNone)
    case True => ParseRule(LiteralFn, NoFn, PrecNone)
    case _ => ParseRule(NoFn, NoFn, PrecNone)
  }

  /** The tokens `binary` has a case for. */
  predicate IsBinaryOperator(kind: TokenType) {
    kind in {BangEqual, EqualEqual, Greater, GreaterEqual, Less, LessEqual, Plus, Minus, Star, Slash}
  }

  /** The tokens that can start an expression, and the prefix rule each one has. */
  lemma PrefixRules(kind: TokenType)
    ensures GetRule(kind).prefix == GroupingFn <==> kind == LeftParen
    ensures GetRule(kind).prefix == UnaryFn <==> kind == Minus || kind == Bang
    ensures GetRule(kind).prefix == NumberFn <==> kind == TokenType.Number
    ensures GetRule(kind).prefix == LiteralFn <==> kind == False || kind == Nil || kind == True
    ensures GetRule(kind).prefix != BinaryFn
  {
  }

  /**
   * Every token with a precedence above `PREC_NONE` has `binary` as its infix
   * rule, so the infix call of `parsePrecedence` never goes through NULL; the
   * infix rule is `binary` exactly for the operators `binary` handles, and no
   * precedence in the table is above `PREC_FACTOR`.
   */
  lemma InfixRules(kind: TokenType)
    ensures GetRule(kind).precedence != PrecNone ==> GetRule(kind).infix == BinaryFn
    ensures GetRule(kind).infix == BinaryFn <==> IsBinaryOperator(kind)
    ensures GetRule(kind).infix == BinaryFn || GetRule(kind).infix == NoFn
    ensures GetRule(kind).precedence <= PrecFactor
  {
  }

  /** The end of the input has no rule at all, so every parsing loop stops there. */
  lemma EofRule()
    ensures GetRule(Eof) == ParseRule(NoFn, NoFn, PrecNone)
  {
  }

  /**
   * `!=` is in the table with `binary` as its infix rule but with precedence
   * `PREC_NONE`, below every precedence `parsePrecedence` is called with: the
   * loop never takes it, and `binary`'s case for it is never reached. `==`,
   * at `PREC_EQUALITY`, is taken.
   */
  lemma BangEqualNeverInfix(precedence: Precedence)
    requires precedence >= PrecAssignment
    ensures GetRule(BangEqual).infix == BinaryFn && IsBinaryOperator(BangEqual)
    ensures !(precedence <= GetRule(BangEqual).precedence)
    ensures precedence <= PrecEquality ==> precedence <= GetRule(EqualEqual).precedence
  {
  }

  // ---------------------------------------------------------------------------
  // The stack discipline of the emitted code

  /** How many values an instruction pops, and how many it pushes. */
  function Effect(op: OpCode): (nat, nat) {
    match op
    case OpConstant => (0, 1)
    case OpNil => (0, 1)
    case OpTrue => (0, 1)
    case OpFalse => (0, 1)
    case OpNot => (1, 1)
    case OpNegate => (1, 1)
    case OpReturn => (1, 0)
    case _ => (2, 1)
  }

  /**
   * The stack depth after running `code` from depth `depth`, with a constant
   * pool of `pool` entries, or `None` when the code is not well formed: an
   * unknown byte, an `OP_CONSTANT` without its operand or with an operand
   * outside the pool, or an instruction that pops more than the stack holds.
   */
  function StackAfter(code: seq<Byte>, pool: nat, depth: nat): Option<nat>
    decreases |code|
  {
    if code == [] then Some(depth)
    else match Decode(code[0])
      case None => None
      case Some(op) =>
        if op == OpConstant then
          if |code| >= 2 && (code[1] as int) < pool then StackAfter(code[2..], pool, depth + 1) else None
        else
          var (pops, pushes) := Effect(op);
          if depth < pops then None else StackAfter(code[1..], pool, depth - pops + pushes)
  }

  /** Running two pieces of code one after the other. */
  lemma {:induction false} StackAfterAppend(a: seq<Byte>, b: seq<Byte>, pool: nat, depth: nat)
    requires StackAfter(a, pool, depth).Some?
    ensures StackAfter(a + b, pool, depth) == StackAfter(b, pool, StackAfter(a, pool, depth).value)
    decreases |a|
  {
    if a == [] {
      assert a + b == b;
    } else {
      var op := Decode(a[0]).value;
      assert (a + b)[0] == a[0];
      if op == OpConstant {
        assert (a + b)[1] == a[1] && (a + b)[2..] == a[2..] + b;
        StackAfterAppend(a[2..], b, pool, depth + 1);
      } else {
        var (pops, pushes) := Effect(op);
        assert (a + b)[1..] == a[1..] + b;
        StackAfterAppend(a[1..], b, pool, depth - pops + pushes);
      }
    }
  }

  /** Code that runs from some depth runs the same way on a deeper stack. */
  lemma {:induction false} StackAfterShift(code: seq<Byte>, pool: nat, depth: nat, extra: nat)
    requires StackAfter(code, pool, depth).Some?
    ensures StackAfter(code, pool, depth + extra) == Some(StackAfter(code, pool, depth).value + extra)
    decreases |code|
  {
    if code != [] {
      var op := Decode(code[0]).value;
      if op == OpConstant {
        StackAfterShift(code[2..], pool, depth + 1, extra);
      } else {
        var (pops, pushes) := Effect(op);
        StackAfterShift(code[1..], pool, depth - pops + pushes, extra);
      }
    }
  }

  /** Code that is well formed for a constant pool stays so when the pool grows. */
  lemma {:induction false} StackAfterPool(code: seq<Byte>, pool: nat, larger: nat, depth: nat)
    requires pool <= larger && StackAfter(code, pool, depth).Some?
    ensures StackAfter(code, larger, depth) == StackAfter(code, pool, depth)
    decreases |code|
  {
    if code != [] {
      var op := Decode(code[0]).value;
      if op == OpConstant {
        StackAfterPool(code[2..], pool, larger, depth + 1);
      } else {
        var (pops, pushes) := Effect(op);
        StackAfterPool(code[1..], pool, larger, depth - pops + pushes);
      }
    }
  }

  /**
   * A chunk that grew from `c0` to `c1` with code taking the stack from `d1`
   * to `d2`, then to `c2` with code taking it from `d2` to `d3`, grew from
   * `c0` to `c2` with code taking it from `d1` to `d3`.
   */
  lemma Extend(c0: seq<Byte>, c1: seq<Byte>, c2: seq<Byte>, pool1: nat, pool2: nat, d1: nat, d2: nat, d3: nat)
    requires c0 <= c1 <= c2 && pool1 <= pool2
    requires StackAfter(c1[|c0|..], pool1, d1) == Some(d2)
    requires StackAfter(c2[|c1|..], pool2, d2) == Some(d3)
    ensures StackAfter(c2[|c0|..], pool2, d1) == Some(d3)
  {
    assert c2[|c0|..] == c1[|c0|..] + c2[|c1|..];
    StackAfterPool(c1[|c0|..], pool1, pool2, d1);
    StackAfterAppend(c1[|c0|..], c2[|c1|..], pool2, d1);
  }

  /** A one-byte instruction pops and pushes what its opcode does. */
  lemma OneByte(op: OpCode, pool: nat, depth: nat)
    requires op != OpConstant && Effect(op).0 <= depth
    ensures StackAfter([Encode(op)], pool, depth) == Some(depth - Effect(op).0 + Effect(op).1)
  {
    DecodeEncode(op);
    assert [Encode(op)][1..] == [];
  }

  /** The bytes `binary` emits after the right operand, in postfix order. */
  function BinaryCode(kind: TokenType): seq<Byte>
    requires IsBinaryOperator(kind)
  {
    match kind
    case BangEqual => [Encode(OpEqual), Encode(OpNot)]
    case EqualEqual => [Encode(OpEqual)]
    case Greater => [Encode(OpGreater)]
    case GreaterEqual => [Encode(OpLess), Encode(OpNot)]
    case Less => [Encode(OpLess)]
    case LessEqual => [Encode(OpGreater), Encode(OpNot)]
    case Plus => [Encode(OpAdd)]
    case Minus => [Encode(OpSubtract)]
    case Star => [Encode(OpMultiply)]
    case Slash => [Encode(OpDivide)]
  }

  /** Every operator's bytes pop its two operands and push one result. */
  lemma BinaryCodeStack(kind: TokenType, pool: nat, depth: nat)
    requires IsBinaryOperator(kind)
    ensures StackAfter(BinaryCode(kind), pool, depth + 2) == Some(depth + 1)
  {
    var code := BinaryCode(kind);
    assert StackAfter(code[|code|..], pool, depth + 1) == Some(depth + 1);
    if |code| == 2 {
      assert StackAfter(code[1..], pool, depth + 1) == Some(depth + 1);
    }
  }

  // ---------------------------------------------------------------------------
  // Tokens and errors

  /** Where `errorAt` says an error is: at the end, nowhere (error tokens), or at a lexeme. */
  datatype Location = AtEnd | AtNothing | AtLexeme(text: string)

  /** One line on stderr: `[line N] Error<location>: <message>`. */
  datatype Diagnostic = Diagnostic(line: nat, location: Location, message: string)

  function Where(src: string, token: Token): (l: Location)
    ensures l == AtEnd <==> token.kind == Eof
    ensures l == AtNothing <==> token.kind == Error
  {
    if token.kind == Eof then AtEnd
    else if token.kind == Error then AtNothing
    else AtLexeme(Text(src, token))
  }

  /** Everything `advance`, `consume` and `errorAt` read and write: the parser and the scanner cursor. */
  datatype ParserState = ParserState(
    current: Token, previous: Token, hadError: bool, panicMode: bool,
    diagnostics: seq<Diagnostic>, start: nat, cursor: nat, line: nat)

  /**
   * What holds of the parser state between calls: the cursor is inside the
   * source, and it is at the end once the look-ahead is the end; an error
   * sets `hadError` and `panicMode` together and nothing clears them, so at
   * most one diagnostic is ever written.
   */
  predicate Consistent(src: string, s: ParserState) {
    s.start <= s.cursor <= |src| && (s.current.kind == Eof ==> s.cursor == |src|) &&
    |s.diagnostics| <= 1 && (s.hadError <==> |s.diagnostics| == 1) && (s.panicMode <==> s.hadError)
  }

  /** `errorAt`: nothing in panic mode; otherwise enter it, write the diagnostic and flag the error. */
  function Report(src: string, s: ParserState, token: Token, message: string): ParserState {
    if s.panicMode then s
    else s.(panicMode := true, diagnostics := s.diagnostics + [Diagnostic(token.line, Where(src, token), message)],
            hadError := true)
  }

  /** After a report the parser has an error; in a consistent state the report keeps it consistent. */
  lemma ReportConsistent(src: string, s: ParserState, token: Token, message: string)
    requires Consistent(src, s)
    ensures Consistent(src, Report(src, s, token, message)) && Report(src, s, token, message).hadError
    ensures !s.hadError ==> Report(src, s, token, message).diagnostics == [Diagnostic(token.line, Where(src, token), message)]
  {
  }

  /** Only the first error is reported: a second report changes nothing. */
  lemma ReportOnce(src: string, s: ParserState, t1: Token, m1: string, t2: Token, m2: string)
    ensures Report(src, Report(src, s, t1, m1), t2, m2) == Report(src, s, t1, m1)
  {
  }

  /**
   * The loop of `advance`: scan a token into `current`; while it is an error
   * token, report its message at it and scan again.
   */
  function Scan(src: string, s: ParserState): ParserState
    requires s.cursor <= |src|
    decreases |src| - s.cursor
  {
    var step := ScanAt(src, s.cursor, s.line);
    var t := s.(current := step.token, start := step.start, cursor := step.current, line := step.line);
    if step.token.kind == Error then
      ScanEof(src, s.cursor, s.line);
      Scan(src, Report(src, t, step.token, Text(src, step.token)))
    else t
  }

  /**
   * The loop stops at a token that is not an error token; it keeps
   * `previous`; the cursor only moves forward, it is at the end when the
   * token is the end, and it has moved when the token is not the end.
   */
  lemma {:induction false} ScanStops(src: string, s: ParserState)
    requires s.cursor <= |src|
    ensures var r := Scan(src, s);
      r.current.kind != Error && r.previous == s.previous &&
      s.cursor <= r.start <= r.cursor <= |src| &&
      (r.current.kind == Eof ==> r.cursor == |src|) &&
      (r.current.kind != Eof ==> s.cursor < r.cursor)
    decreases |src| - s.cursor
  {
    var step := ScanAt(src, s.cursor, s.line);
    ScanEof(src, s.cursor, s.line);
    if step.token.kind == Error {
      var t := s.(current := step.token, start := step.start, cursor := step.current, line := step.line);
      ScanStops(src, Report(src, t, step.token, Text(src, step.token)));
    }
  }

  /** In panic mode the loop reports nothing. */
  lemma {:induction false} ScanQuiet(src: string, s: ParserState)
    requires s.cursor <= |src| && s.panicMode
    ensures var r := Scan(src, s);
      r.diagnostics == s.diagnostics && r.hadError == s.hadError && r.panicMode
    decreases |src| - s.cursor
  {
    var step := ScanAt(src, s.cursor, s.line);
    ScanEof(src, s.cursor, s.line);
    if step.token.kind == Error {
      var t := s.(current := step.token, start := step.start, cursor := step.current, line := step.line);
      ScanQuiet(src, Report(src, t, step.token, Text(src, step.token)));
    }
  }

  /**
   * `advance` reports an error only when the very first token it scans is an
   * error token and the parser is not already in panic mode; the diagnostic
   * then carries that token's line and message and no location.
   */
  lemma ScanReports(src: string, s: ParserState)
    requires s.cursor <= |src|
    ensures var r := Scan(src, s);
      var first := ScanAt(src, s.cursor, s.line).token;
      if first.kind == Error && !s.panicMode then
        r.hadError && r.panicMode &&
        r.diagnostics == s.diagnostics + [Diagnostic(first.line, AtNothing, Text(src, first))]
      else
        r.hadError == s.hadError && r.panicMode == s.panicMode && r.diagnostics == s.diagnostics
  {
    var step := ScanAt(src, s.cursor, s.line);
    ScanEof(src, s.cursor, s.line);
    if step.token.kind == Error {
      var t := s.(current := step.token, start := step.start, cursor := step.current, line := step.line);
      ScanQuiet(src, Report(src, t, step.token, Text(src, step.token)));
    }
  }

  /**
   * What is left to read: the characters after the cursor, plus one while
   * the look-ahead is not the end. Every `advance` from a look-ahead that is
   * not the end makes it smaller, which is why parsing terminates.
   */
  function Measure(src: string, s: ParserState): nat {
    (if s.cursor <= |src| then |src| - s.cursor else 0) + (if s.current.kind == Eof then 0 else 1)
  }

  /** `advance` keeps the state consistent, never lets an error go, and consumes input. */
  lemma ScanProgress(src: string, s: ParserState, previous: Token)
    requires Consistent(src, s)
    ensures var r := Scan(src, s.(previous := previous));
      Consistent(src, r) && r.previous == previous && r.current.kind != Error &&
      (s.hadError ==> r.hadError) &&
      Measure(src, r) <= Measure(src, s) &&
      (s.current.kind != Eof ==> Measure(src, r) < Measure(src, s))
  {
    var p := s.(previous := previous);
    ScanStops(src, p);
    ScanReports(src, p);
  }

  // ---------------------------------------------------------------------------
  // What a parsing step may do to the chunk

  /** The chunk's bytes and constants, the error flag and the input left, at one moment. */
  datatype Progress = Progress(code: seq<Byte>, constants: seq<Values.Value>, hadError: bool, remaining: nat)

  /**
   * From `a` to `b` bytes and constants were only appended, an error once
   * flagged stayed flagged, no input was given back, and, unless an error was
   * flagged, the appended bytes are well formed and take the stack from depth
   * `from` to depth `to`.
   */
  ghost predicate Emitted(a: Progress, b: Progress, from: nat, to: nat) {
    a.code <= b.code && a.constants <= b.constants && (a.hadError ==> b.hadError) && b.remaining <= a.remaining &&
    (!b.hadError ==> StackAfter(b.code[|a.code|..], |b.constants|, from) == Some(to))
  }

  /** Two steps one after the other make one step. */
  lemma EmittedChain(a: Progress, b: Progress, c: Progress, d1: nat, d2: nat, d3: nat)
    requires Emitted(a, b, d1, d2) && Emitted(b, c, d2, d3)
    ensures Emitted(a, c, d1, d3)
  {
    if !c.hadError {
      Extend(a.code, b.code, c.code, |b.constants|, |c.constants|, d1, d2, d3);
    }
  }

  /** A step that pushes one value onto an empty stack pushes one onto any stack. */
  lemma EmittedShift(a: Progress, b: Progress, depth: nat)
    requires Emitted(a, b, 0, 1)
    ensures Emitted(a, b, depth, depth + 1)
  {
    if !b.hadError {
      StackAfterShift(b.code[|a.code|..], |b.constants|, 0, depth);
    }
  }

  /** Appending `bytes`, and nothing else, is a step with the stack effect of `bytes`. */
  lemma EmittedBytes(a: Progress, b: Progress, bytes: seq<Byte>, from: nat, to: nat)
    requires b.code == a.code + bytes && a.constants <= b.constants && (a.hadError ==> b.hadError)
    requires b.remaining <= a.remaining && StackAfter(bytes, |b.constants|, from) == Some(to)
    ensures Emitted(a, b, from, to)
  {
    assert b.code[|a.code|..] == bytes;
  }

  /** A step that appends nothing, as a `consume` does, keeps the stack effect of the steps before it. */
  lemma EmittedKeep(a: Progress, b: Progress, c: Progress)
    requires Emitted(a, b, 0, 1)
    requires c.code == b.code && c.constants == b.constants && (b.hadError ==> c.hadError) && c.remaining <= b.remaining
    ensures Emitted(a, c, 0, 1)
  {
  }

  /**
   * An operand that pushes one value, then `bytes` that take the stack from
   * `from + 1` to `to`: together they take it from `from` to `to`.
   */
  lemma OperandThen(a: Progress, b: Progress, c: Progress, bytes: seq<Byte>, from: nat, to: nat)
    requires Emitted(a, b, 0, 1)
    requires c.code == b.code + bytes && b.constants <= c.constants && (b.hadError ==> c.hadError)
    requires c.remaining <= b.remaining && StackAfter(bytes, |c.constants|, from + 1) == Some(to)
    ensures Emitted(a, c, from, to)
  {
    EmittedShift(a, b, from);
    EmittedBytes(b, c, bytes, from + 1, to);
    EmittedChain(a, b, c, from, from + 1, to);
  }

  /**
   * `binary` after its left operand: the right operand pushes one value and
   * the operator's bytes combine the two into one, and the code ends with
   * those bytes.
   */
  lemma BinaryStep(a: Progress, b: Progress, c: Progress, kind: TokenType)
    requires IsBinaryOperator(kind) && Emitted(a, b, 0, 1)
    requires c.code == b.code + BinaryCode(kind) && c.constants == b.constants && b.hadError == c.hadError
    requires c.remaining == b.remaining
    ensures Emitted(a, c, 1, 1)
    ensures |BinaryCode(kind)| <= |c.code| && c.code[|c.code| - |BinaryCode(kind)|..] == BinaryCode(kind)
  {
    BinaryCodeStack(kind, |c.constants|, 0);
    OperandThen(a, b, c, BinaryCode(kind), 1, 1);
    assert c.code[|b.code|..] == BinaryCode(kind);
  }

  // ---------------------------------------------------------------------------
  // The parser

  class Parser {
    var current: Token
    var previous: Token
    var hadError: bool
    var panicMode: bool
    /** What `errorAt` has written to stderr, oldest first. */
    var diagnostics: seq<Diagnostic>
    const scanner: Scanner
    /** `compilingChunk`. */
    const chunk: Chunk
    /**
     * The C library's `strtod`, applied to the input from a number token's
     * start to the end of the input.
     */
    const strtod: string -> Values.Double

    function Source(): string {
      scanner.src
    }

    ghost function State(): ParserState
      reads this, scanner
    {
      ParserState(current, previous, hadError, panicMode, diagnostics, scanner.start, scanner.current, scanner.line)
    }

    ghost predicate Valid()
      reads this, scanner, chunk, chunk.constants
    {
      scanner.Valid() && chunk.Valid() && Consistent(scanner.src, State())
    }

    ghost function Remaining(): nat
      reads this, scanner
    {
      Measure(scanner.src, State())
    }

    ghost function Now(): Progress
      reads this, scanner, chunk, chunk.code, chunk.constants, chunk.constants.values
      requires chunk.Valid()
    {
      Progress(chunk.Code(), chunk.Constants(), hadError, Remaining())
    }

    /** The objects a parsing step may change. */
    ghost function Repr(): set<object>
      reads this, chunk, chunk.constants
    {
      {this, scanner, chunk, chunk.code, chunk.constants, chunk.constants.values}
    }

    /**
     * The state `compile` sets up: the flags cleared and no diagnostics. The
     * tokens are those of a zero-initialised global.
     */
    constructor (scanner: Scanner, chunk: Chunk, strtod: string -> Values.Double)
      requires scanner.Valid() && chunk.Valid()
      ensures Valid() && this.scanner == scanner && this.chunk == chunk && this.strtod == strtod
      ensures !hadError && !panicMode && diagnostics == []
    {
      current := Token(LeftParen, Slice(0, 0), 0);
      previous := Token(LeftParen, Slice(0, 0), 0);
      hadError := false;
      panicMode := false;
      diagnostics := [];
      this.scanner := scanner;
      this.chunk := chunk;
      this.strtod := strtod;
    }

    /** `errorAt`. */
    method ErrorAt(token: Token, message: string)
      requires Valid()
      modifies this
      ensures Valid() && State() == Report(Source(), old(State()), token, message) && hadError
    {
      ReportConsistent(Source(), State(), token, message);
      if panicMode {
        return;
      }
      panicMode := true;
      diagnostics := diagnostics + [Diagnostic(token.line, Where(Source(), token), message)];
      hadError := true;
    }

    /** `error`: report at the token just consumed. */
    method Error(message: string)
      requires Valid()
      modifies this
      ensures Valid() && State() == Report(Source(), old(State()), old(previous), message) && hadError
    {
      ErrorAt(previous, message);
    }

    /** `errorAtCurrent`: report at the look-ahead token. */
    method ErrorAtCurrent(message: string)
      requires Valid()
      modifies this
      ensures Valid() && State() == Report(Source(), old(State()), old(current), message) && hadError
    {
      ErrorAt(current, message);
    }

    /** `advance`: shift the look-ahead into `previous`, then scan, reporting and skipping error tokens. */
    method Advance()
      requires Valid()
      modifies this, scanner
      ensures Valid() && State() == Scan(Source(), old(State()).(previous := old(current)))
      ensures previous == old(current) && current.kind != TokenType.Error && (old(hadError) ==> hadError)
      ensures Remaining() <= old(Remaining()) && (old(current).kind != Eof ==> Remaining() < old(Remaining()))
    {
      ScanProgress(Source(), State(), current);
      ghost var target := Scan(Source(), State().(previous := current));
      previous := current;
      while true
        invariant Valid() && Scan(Source(), State()) == target
        decreases |scanner.src| - scanner.current
      {
        ghost var before := State();
        current := scanner.ScanToken();
        ghost var step := ScanAt(Source(), before.cursor, before.line);
        ScanEof(Source(), before.cursor, before.line);
        assert State() == before.(current := step.token, start := step.start, cursor := step.current, line := step.line);
        if current.kind != TokenType.Error {
          break;
        }
        ErrorAtCurrent(Text(Source(), current));
      }
    }

    /** `consume`: advance past the expected token, or report `message` at the look-ahead and stay. */
    method Consume(kind: TokenType, message: string)
      requires Valid()
      modifies this, scanner
      ensures Valid() && (old(hadError) ==> hadError) && Remaining() <= old(Remaining())
      ensures old(current).kind == kind ==> State() == Scan(Source(), old(State()).(previous := old(current)))
      ensures old(current).kind != kind ==> State() == Report(Source(), old(State()), old(current), message)
    {
      if current.kind == kind {
        Advance();
        return;
      }
      ErrorAtCurrent(message);
    }

    /** `emitByte`: append a byte to the chunk being compiled. */
    method EmitByte(byte: Byte)
      requires Valid()
      modifies chunk, chunk.code
      ensures Valid() && fresh(Repr() - old(Repr()))
      ensures chunk.Code() == old(chunk.Code()) + [byte] && chunk.Constants() == old(chunk.Constants())
    {
      chunk.Write(byte);
    }

    /** `emitBytes`. */
    method EmitBytes(byte1: Byte, byte2: Byte)
      requires Valid()
      modifies chunk, chunk.code
      ensures Valid() && fresh(Repr() - old(Repr()))
      ensures chunk.Code() == old(chunk.Code()) + [byte1, byte2] && chunk.Constants() == old(chunk.Constants())
    {
      EmitByte(byte1);
      EmitByte(byte2);
    }

    /** `emitReturn`. */
    method EmitReturn()
      requires Valid()
      modifies chunk, chunk.code
      ensures Valid() && fresh(Repr() - old(Repr()))
      ensures chunk.Code() == old(chunk.Code()) + [Encode(OpReturn)] && chunk.Constants() == old(chunk.Constants())
    {
      EmitByte(Encode(OpReturn));
    }

    /**
     * `makeConstant`: add `value` to the pool and return its index; past 256
     * constants, report "Too many constants in one chunk." and return 0.
     */
    method MakeConstant(value: Values.Value) returns (index: Byte)
      requires Valid()
      modifies this, chunk.constants, chunk.constants.values
      ensures Valid() && fresh(Repr() - old(Repr()))
      ensures chunk.Code() == old(chunk.Code()) && chunk.Constants() == old(chunk.Constants()) + [value]
      ensures |old(chunk.Constants())| <= 255 ==> index as int == |old(chunk.Constants())| && State() == old(State())
      ensures |old(chunk.Constants())| > 255 ==>
        index == 0 && State() == Report(Source(), old(State()), old(previous), "Too many constants in one chunk.")
      ensures index as int < |chunk.Constants()| && (old(hadError) ==> hadError)
    {
      var constant := chunk.AddConstant(value);
      if constant > 255 {
        Error("Too many constants in one chunk.");
        return 0;
      }
      return constant as Byte;
    }

    /** `emitConstant`: `OP_CONSTANT` and the index of `value` in the pool. */
    method EmitConstant(value: Values.Value)
      requires Valid()
      modifies Repr()
      ensures Valid() && fresh(Repr() - old(Repr())) && Emitted(old(Now()), Now(), 0, 1)
      ensures chunk.Constants() == old(chunk.Constants()) + [value]
      ensures |chunk.Code()| == |old(chunk.Code())| + 2 && chunk.Code()[|old(chunk.Code())|] == Encode(OpConstant)
    {
      ghost var before := Now();
      var index := MakeConstant(value);
      EmitBytes(Encode(OpConstant), index);
      EmittedBytes(before, Now(), [Encode(OpConstant), index], 0, 1);
    }

    /** `expression`: an expression at the lowest precedence that takes operators. */
    method Expression()
      requires Valid()
      modifies Repr()
      ensures Valid() && fresh(Repr() - old(Repr())) && Emitted(old(Now()), Now(), 0, 1)
      decreases Remaining(), 6
    {
      ParsePrecedence(PrecAssignment);
    }

    /**
     * A call through a rule's function pointer: `prefixRule()` or
     * `infixRule()` in `parsePrecedence`. The operator or operand is the token
     * just consumed; an infix rule finds its left operand on the stack.
     */
    method CallRule(rule: ParseFn)
      requires Valid() && rule != NoFn
      requires rule == UnaryFn ==> previous.kind == Bang || previous.kind == Minus
      requires rule == NumberFn ==> previous.kind == TokenType.Number
      requires rule == LiteralFn ==> previous.kind in {False, Nil, True}
      requires rule == BinaryFn ==> IsBinaryOperator(previous.kind)
      modifies Repr()
      ensures Valid() && fresh(Repr() - old(Repr()))
      ensures Emitted(old(Now()), Now(), if rule == BinaryFn then 1 else 0, 1)
      decreases Remaining(), 10
    {
      match rule {
        case GroupingFn => Grouping();
        case UnaryFn => Unary();
        case NumberFn => Number();
        case LiteralFn => Literal();
        case BinaryFn => Binary();
      }
    }

    /**
     * The operand of `binary` and `unary`: `parsePrecedence`, seen only as the
     * code of one value and the point where its loop stops.
     */
    method Operand(precedence: Precedence)
      requires Valid() && precedence >= PrecAssignment
      modifies Repr()
      ensures Valid() && fresh(Repr() - old(Repr())) && Emitted(old(Now()), Now(), 0, 1)
      ensures !hadError ==> GetRule(current.kind).precedence < precedence
      decreases Remaining(), 5
    {
      ParsePrecedence(precedence);
    }

    /**
     * `parsePrecedence`: parse a prefix expression, then keep taking infix
     * operators while the look-ahead's precedence is at least `precedence`.
     */
    method ParsePrecedence(precedence: Precedence)
      requires Valid() && precedence >= PrecAssignment
      modifies Repr()
      ensures Valid() && fresh(Repr() - old(Repr())) && Emitted(old(Now()), Now(), 0, 1)
      ensures GetRule(old(current).kind).prefix == NoFn ==>
                chunk.Code() == old(chunk.Code()) && chunk.Constants() == old(chunk.Constants()) && hadError
      ensures !hadError ==> GetRule(current.kind).precedence < precedence
      decreases Remaining(), 4
    {
      ghost var start := Now();
      var ok := Prefix();
      if !ok {
        return;
      }
      while precedence <= GetRule(current.kind).precedence
        invariant Valid() && fresh(Repr() - old(Repr()))
        invariant Emitted(start, Now(), 0, 1) && Remaining() <= start.remaining
        decreases Remaining()
      {
        ghost var before := Now();
        Infix();
        EmittedChain(start, before, Now(), 0, 1, 1);
      }
    }

    /**
     * The first half of `parsePrecedence`: consume a token and call its
     * prefix rule, or report "Expect expression." when it has none.
     */
    method Prefix() returns (ok: bool)
      requires Valid()
      modifies Repr()
      ensures Valid() && fresh(Repr() - old(Repr())) && Emitted(old(Now()), Now(), 0, 1)
      ensures ok <==> GetRule(old(current).kind).prefix != NoFn
      ensures !ok ==> chunk.Code() == old(chunk.Code()) && chunk.Constants() == old(chunk.Constants())
      ensures !ok ==> State() == Report(Source(), Scan(Source(), old(State()).(previous := old(current))),
                                        old(current), "Expect expression.")
      decreases Remaining(), 2
    {
      Advance();
      var prefixRule := GetRule(previous.kind).prefix;
      PrefixRules(previous.kind);
      EofRule();
      if prefixRule == NoFn {
        Error("Expect expression.");
        return false;
      }
      CallRule(prefixRule);
      ok := true;
    }

    /**
     * One turn of the loop in `parsePrecedence`: consume the operator that
     * the look-ahead's rule gives a precedence, and call its infix rule.
     */
    method Infix()
      requires Valid() && GetRule(current.kind).precedence >= PrecAssignment
      modifies Repr()
      ensures Valid() && fresh(Repr() - old(Repr())) && Emitted(old(Now()), Now(), 1, 1)
      ensures Remaining() < old(Remaining())
      decreases Remaining(), 2
    {
      EofRule();
      Advance();
      var infixRule := GetRule(previous.kind).infix;
      InfixRules(previous.kind);
      CallRule(infixRule);
    }

    /**
     * `binary`: the right operand one level above the operator, then the
     * operator's bytes. The operand stops before any operator of the same or a
     * lower level, which the caller's loop then takes, so `a - b - c` groups to
     * the left; an operator of a higher level joins the operand.
     */
    method Binary()
      requires Valid() && IsBinaryOperator(previous.kind)
      modifies Repr()
      ensures Valid() && fresh(Repr() - old(Repr())) && Emitted(old(Now()), Now(), 1, 1)
      ensures |BinaryCode(old(previous).kind)| <= |chunk.Code()|
      ensures chunk.Code()[|chunk.Code()| - |BinaryCode(old(previous).kind)|..] == BinaryCode(old(previous).kind)
      ensures !hadError ==> GetRule(current.kind).precedence <= GetRule(old(previous).kind).precedence
      decreases Remaining(), 6
    {
      ghost var start := Now();
      var operatorType := previous.kind;
      var rule := GetRule(operatorType);
      Operand(rule.precedence + 1);
      ghost var operand := Now();
      EmitOperator(operatorType);
      BinaryStep(start, operand, Now(), operatorType);
    }

    /** The `switch` of `binary`: the bytes for the operator, emitted after both operands. */
    method EmitOperator(operatorType: TokenType)
      requires Valid() && IsBinaryOperator(operatorType)
      modifies chunk, chunk.code
      ensures Valid() && fresh(Repr() - old(Repr()))
      ensures chunk.Code() == old(chunk.Code()) + BinaryCode(operatorType) && chunk.Constants() == old(chunk.Constants())
    {
      match operatorType {
        case BangEqual => EmitBytes(Encode(OpEqual), Encode(OpNot));
        case EqualEqual => EmitByte(Encode(OpEqual));
        case Greater => EmitByte(Encode(OpGreater));
        case GreaterEqual => EmitBytes(Encode(OpLess), Encode(OpNot));
        case Less => EmitByte(Encode(OpLess));
        case LessEqual => EmitBytes(Encode(OpGreater), Encode(OpNot));
        case Plus => EmitByte(Encode(OpAdd));
        case Minus => EmitByte(Encode(OpSubtract));
        case Star => EmitByte(Encode(OpMultiply));
        case Slash => EmitByte(Encode(OpDivide));
      }
    }

    /** `literal`: `false`, `nil` and `true` each have their own instruction. */
    method Literal()
      requires Valid() && previous.kind in {False, Nil, True}
      modifies Repr()
      ensures Valid() && fresh(Repr() - old(Repr())) && Emitted(old(Now()), Now(), 0, 1)
      ensures State() == old(State()) && chunk.Constants() == old(chunk.Constants())
      ensures chunk.Code() == old(chunk.Code()) + [Encode(
        match old(previous).kind
        case False => OpFalse
        case Nil => OpNil
        case _ => OpTrue)]
    {
      ghost var start := Now();
      match previous.kind {
        case False => EmitByte(Encode(OpFalse));
        case Nil => EmitByte(Encode(OpNil));
        case True => EmitByte(Encode(OpTrue));
      }
      EmittedBytes(start, Now(), chunk.Code()[|start.code|..], 0, 1);
    }

    /** `grouping`: the inner expression, then the closing parenthesis. */
    method Grouping()
      requires Valid()
      modifies Repr()
      ensures Valid() && fresh(Repr() - old(Repr())) && Emitted(old(Now()), Now(), 0, 1)
      decreases Remaining(), 8
    {
      ghost var start := Now();
      Expression();
      ghost var inner := Now();
      Consume(RightParen, "Expect ')' after expression.");
      EmittedKeep(start, inner, Now());
    }

    /**
     * `number`: the constant `strtod` reads from the token's start. It reads
     * at least the token's digits and may read on past them.
     */
    method Number()
      requires Valid() && previous.kind == TokenType.Number
      modifies Repr()
      ensures Valid() && fresh(Repr() - old(Repr())) && Emitted(old(Now()), Now(), 0, 1)
      ensures chunk.Constants() == old(chunk.Constants()) + [Values.Number(strtod(TextFrom(Source(), old(previous))))]
      ensures |chunk.Code()| == |old(chunk.Code())| + 2 && chunk.Code()[|old(chunk.Code())|] == Encode(OpConstant)
    {
      var value := strtod(TextFrom(Source(), previous));
      EmitConstant(Values.Number(value));
    }

    /** `unary`: the operand at `PREC_UNARY`, then `OP_NOT` or `OP_NEGATE`. */
    method Unary()
      requires Valid() && (previous.kind == Bang || previous.kind == Minus)
      modifies Repr()
      ensures Valid() && fresh(Repr() - old(Repr())) && Emitted(old(Now()), Now(), 0, 1)
      ensures |chunk.Code()| > 0
      ensures chunk.Code()[|chunk.Code()| - 1] == Encode(if old(previous).kind == Bang then OpNot else OpNegate)
      decreases Remaining(), 6
    {
      ghost var start := Now();
      var operatorType := previous.kind;
      Operand(PrecUnary);
      ghost var operand := Now();
      var op := if operatorType == Bang then OpNot else OpNegate;
      if operatorType == Bang {
        EmitByte(Encode(OpNot));
      } else {
        EmitByte(Encode(OpNegate));
      }
      OneByte(op, |chunk.Constants()|, 1);
      OperandThen(start, operand, Now(), [Encode(op)], 0, 1);
    }

    /** `endCompiler`: close the chunk with `OP_RETURN`. */
    method EndCompiler()
      requires Valid()
      modifies chunk, chunk.code
      ensures Valid() && fresh(Repr() - old(Repr()))
      ensures chunk.Code() == old(chunk.Code()) + [Encode(OpReturn)] && chunk.Constants() == old(chunk.Constants())
    {
      EmitReturn();
    }

    /** The end of `compile`: the end of the input, then `OP_RETURN`, which takes the expression's value. */
    method Finish()
      requires Valid()
      modifies this, scanner, chunk, chunk.code
      ensures Valid() && fresh(Repr() - old(Repr())) && Emitted(old(Now()), Now(), 1, 0)
      ensures chunk.Code() == old(chunk.Code()) + [Encode(OpReturn)]
    {
      ghost var before := Now();
      Consume(Eof, "Expect end of expression.");
      EndCompiler();
      OneByte(OpReturn, |chunk.Constants()|, 1);
      EmittedBytes(before, Now(), [Encode(OpReturn)], 1, 0);
    }

    /**
     * The body of `compile` once the scanner and the parser are set up: one
     * expression, then the end of the input, then `OP_RETURN`.
     */
    method CompileExpression()
      requires Valid()
      modifies Repr()
      ensures Valid() && fresh(Repr() - old(Repr())) && Emitted(old(Now()), Now(), 0, 0)
      ensures |chunk.Code()| > 0 && chunk.Code()[|chunk.Code()| - 1] == Encode(OpReturn)
    {
      ghost var initial := Now();
      Advance();
      ghost var start := Now();
      EmittedBytes(initial, start, [], 0, 0);
      Expression();
      ghost var expression := Now();
      EmittedChain(initial, start, expression, 0, 0, 1);
      Finish();
      EmittedChain(initial, expression, Now(), 0, 1, 0);
    }
  }

  /**
   * `compile`: one expression followed by the end of the input, compiled into
   * `chunk` and closed with `OP_RETURN`. The result is true exactly when no
   * error was reported; at most one error is. The bytes and constants are
   * appended to what the chunk held, and after a successful compile the new
   * bytes are well formed code that leaves the stack as it found it.
   */
  method Compile(source: string, chunk: Chunk, strtod: string -> Values.Double) returns (ok: bool, diagnostics: seq<Diagnostic>)
    requires NulFree(source) && chunk.Valid()
    modifies chunk, chunk.code, chunk.constants, chunk.constants.values
    ensures chunk.Valid()
    ensures ok <==> diagnostics == []
    ensures |diagnostics| <= 1
    ensures old(chunk.Code()) <= chunk.Code() && old(chunk.Constants()) <= chunk.Constants()
    ensures |chunk.Code()| > 0 && chunk.Code()[|chunk.Code()| - 1] == Encode(OpReturn)
    ensures ok ==> StackAfter(chunk.Code()[|old(chunk.Code())|..], |chunk.Constants()|, 0) == Some(0)
  {
    var scanner := new Scanner(source);
    var parser := new Parser(scanner, chunk, strtod);
    parser.CompileExpression();
    ok := !parser.hadError;
    diagnostics := parser.diagnostics;
  }
}
