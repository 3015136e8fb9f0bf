/**
 * The lexer of scanner.c.  The scanner is a cursor (`start`, `current`,
 * `line`) over a NUL-terminated source; here the source is a `string` without
 * NUL characters and reading at or past its end yields `'\0'`, as reading the
 * terminator does in C.
 *
 * The pure part (character classes, keyword lookup) is written as functions.
 * What `scanToken` computes from a cursor position is written once more as
 * the specification function `ScanAt`; the `Scanner` class then does the
 * work step by step, as the C code does, and each of its methods is proved to
 * agree with the specification.
 */
module Lexer {
  import opened Wrappers

  datatype TokenType =
    | LeftParen | RightParen | LeftBrace | RightBrace
    | Comma | Dot | Minus | Plus | Semicolon | Slash | Star
    | Bang | BangEqual | Equal | EqualEqual
    | Greater | GreaterEqual | Less | LessEqual
    | Identifier | String | Number
    | And | Class | Else | False | For | Fun | If | Nil | Or
    | Print | Return | Super | This | True | Var | While
    | Error | Eof

  /**
   * Where a token's text lives: a slice of the source, or (for an error
   * token, whose `start` points at a static message in C) the message.
   */
  datatype Lexeme = Slice(start: nat, length: nat) | Message(text: string)

  datatype Token = Token(kind: TokenType, lexeme: Lexeme, line: nat)

  /** The text of a token. */
  function Text(src: string, t: Token): string {
    match t.lexeme
    case Slice(start, length) => if start + length <= |src| then src[start..start + length] else []
    case Message(text) => text
  }

  /**
   * The input from a token's start to its end: what a C routine handed the
   * token's start pointer sees. It begins with the token's text.
   */
  function TextFrom(src: string, t: Token): (r: string)
    ensures t.lexeme.Slice? && t.lexeme.start + t.lexeme.length <= |src| ==>
      Text(src, t) <= r && |r| == |src| - t.lexeme.start
    ensures t.lexeme.Message? ==> r == []
  {
    match t.lexeme
    case Slice(start, _) => if start <= |src| then src[start..] else []
    case Message(_) => []
  }

  const UnterminatedString := "Unterminated string."
  const UnexpectedCharacter := "Unexpected character."

  /** The character at `i`, or the terminating `'\0'` at and after the end. */
  function Char(src: string, i: nat): char {
    if i < |src| then src[i] else '\0'
  }

  /** A C string cannot hold a NUL before its terminator. */
  predicate NulFree(src: string) {
    '\0' !in src
  }

  /** Letters and `_` start no other token: not a digit, an operator or a quote. */
  predicate IsAlpha(c: char): (b: bool)
    ensures b ==> !IsDigit(c) && SingleCharKind(c).None? && !IsTwoCharLead(c) && c != '"'
  {
    ('a' <= c <= 'z') || ('A' <= c <= 'Z') || c == '_'
  }

  /** The ten decimal digits, which start no other token. */
  predicate IsDigit(c: char): (b: bool)
    ensures b ==> SingleCharKind(c).None? && !IsTwoCharLead(c) && c != '"'
  {
    '0' <= c <= '9'
  }

  // ---------------------------------------------------------------------------
  // Keywords

  /**
   * `checkKeyword`: the identifier `text` is the keyword `kind` when it is
   * exactly `start + length` long and its characters from `start` on are `rest`.
   */
  function CheckKeyword(text: string, start: nat, length: nat, rest: string, kind: TokenType): (k: TokenType)
    requires |rest| == length
    ensures k == kind || k == Identifier
    ensures kind != Identifier ==> (k == kind <==> |text| == start + length && text[start..] == rest)
  {
    if |text| == start + length && text[start..start + length] == rest then kind else Identifier
  }

  /** `identifierType`: the keyword trie, branching on the first one or two characters. */
  function IdentifierType(text: string): (r: TokenType)
    requires |text| > 0
    ensures r in {Identifier, And, Class, Else, False, For, Fun, If, Nil, Or, Print, Return, Super, This, True, Var, While}
    ensures r != Identifier ==> 2 <= |text| <= 6
  {
    match text[0]
    case 'a' => CheckKeyword(text, 1, 2, "nd", And)
    case 'c' => CheckKeyword(text, 1, 4, "lass", Class)
    case 'e' => CheckKeyword(text, 1, 3, "lse", Else)
    case 'f' =>
      if |text| > 1 then
        match text[1]
        case 'a' => CheckKeyword(text, 2, 3, "lse", False)
        case 'o' => CheckKeyword(text, 2, 1, "r", For)
        case 'u' => CheckKeyword(text, 2, 1, "n", Fun)
        case _ => Identifier
      else Identifier
    case 'i' => CheckKeyword(text, 1, 1, "f", If)
    case 'n' => CheckKeyword(text, 1, 2, "il", Nil)
    case 'o' => CheckKeyword(text, 1, 1, "r", Or)
    case 'p' => CheckKeyword(text, 1, 4, "rint", Print)
    case 'r' => CheckKeyword(text, 1, 5, "eturn", Return)
    case 's' => CheckKeyword(text, 1, 4, "uper", Super)
    case 't' =>
      if |text| > 1 then
        match text[1]
        case 'h' => CheckKeyword(text, 2, 2, "is", This)
        case 'r' => CheckKeyword(text, 2, 2, "ue", True)
        case _ => Identifier
      else Identifier
    case 'v' => CheckKeyword(text, 1, 2, "ar", Var)
    case 'w' => CheckKeyword(text, 1, 4, "hile", While)
    case _ => Identifier
  }

  /** The reserved words of the language, by their whole spelling, grouped by length. */
  function Keyword(text: string): TokenType {
    match |text|
    case 2 =>
      if text == "if" then If
      else if text == "or" then Or
      else Identifier
    case 3 =>
      if text == "and" then And
      else if text == "for" then For
      else if text == "fun" then Fun
      else if text == "nil" then Nil
      else if text == "var" then Var
      else Identifier
    case 4 =>
      if text == "else" then Else
      else if text == "this" then This
      else if text == "true" then True
      else Identifier
    case 5 =>
      if text == "class" then Class
      else if text == "false" then False
      else if text == "print" then Print
      else if text == "super" then Super
      else if text == "while" then While
      else Identifier
    case 6 =>
      if text == "return" then Return
      else Identifier
    case _ => Identifier
  }

  /**
   * Once its first `start` characters agree with `word`, a text of the same
   * length ends in the rest of `word` exactly when it is `word`.
   */
  lemma Spelled(text: string, start: nat, rest: string, word: string)
    requires |text| == |word| == start + |rest| && word[start..] == rest
    requires forall k :: 0 <= k < start ==> text[k] == word[k]
    ensures text[start..start + |rest|] == rest <==> text == word
  {
    if text[start..start + |rest|] == rest {
      assert forall k :: 0 <= k < |text| ==> text[k] == word[k] by {
        forall k | 0 <= k < |text|
          ensures text[k] == word[k]
        {
          if k >= start {
            assert text[k] == text[start..start + |rest|][k - start];
          }
        }
      }
    }
  }

  /** The trie recognises exactly the reserved words: any other identifier is `Identifier`. */
  lemma IdentifierTypeIsKeyword(text: string)
    requires |text| > 0
    ensures IdentifierType(text) == Keyword(text)
  {
    match text[0]
    case 'a' => KeywordA(text);
    case 'c' => KeywordC(text);
    case 'e' => KeywordE(text);
    case 'f' => KeywordF(text);
    case 'i' => KeywordI(text);
    case 'n' => KeywordN(text);
    case 'o' => KeywordO(text);
    case 'p' => KeywordP(text);
    case 'r' => KeywordR(text);
    case 's' => KeywordS(text);
    case 't' => KeywordT(text);
    case 'v' => KeywordV(text);
    case 'w' => KeywordW(text);
    case _ => KeywordOther(text);
  }

  /**
   * `ReservedX`: which reserved word, if any, a text starting with the letter
   * x is, character by character.
   */
  lemma ReservedA(text: string)
    requires |text| > 0 && text[0] == 'a'
    ensures Keyword(text) ==
      if |text| == 3 && text[1] == 'n' && text[2] == 'd' then And
      else Identifier
  {
  }

  lemma KeywordA(text: string)
    requires |text| > 0 && text[0] == 'a'
    ensures IdentifierType(text) == Keyword(text)
  {
    ReservedA(text);
    if |text| == 3 { Spelled(text, 1, "nd", "and"); }
  }

  lemma ReservedC(text: string)
    requires |text| > 0 && text[0] == 'c'
    ensures Keyword(text) ==
      if |text| == 5 && text[1] == 'l' && text[2] == 'a' && text[3] == 's' && text[4] == 's' then Class
      else Identifier
  {
  }

  lemma KeywordC(text: string)
    requires |text| > 0 && text[0] == 'c'
    ensures IdentifierType(text) == Keyword(text)
  {
    ReservedC(text);
    if |text| == 5 { Spelled(text, 1, "lass", "class"); }
  }

  lemma ReservedE(text: string)
    requires |text| > 0 && text[0] == 'e'
    ensures Keyword(text) ==
      if |text| == 4 && text[1] == 'l' && text[2] == 's' && text[3] == 'e' then Else
      else Identifier
  {
  }

  lemma KeywordE(text: string)
    requires |text| > 0 && text[0] == 'e'
    ensures IdentifierType(text) == Keyword(text)
  {
    ReservedE(text);
    if |text| == 4 { Spelled(text, 1, "lse", "else"); }
  }

  lemma ReservedF(text: string)
    requires |text| > 0 && text[0] == 'f'
    ensures Keyword(text) ==
      if |text| == 5 && text[1] == 'a' && text[2] == 'l' && text[3] == 's' && text[4] == 'e' then False
      else if |text| == 3 && text[1] == 'o' && text[2] == 'r' then For
      else if |text| == 3 && text[1] == 'u' && text[2] == 'n' then Fun
      else Identifier
  {
  }

  lemma KeywordF(text: string)
    requires |text| > 0 && text[0] == 'f'
    ensures IdentifierType(text) == Keyword(text)
  {
    ReservedF(text);
    if |text| == 5 && text[1] == 'a' {
      Spelled(text, 2, "lse", "false");
    } else if |text| == 3 && text[1] == 'o' {
      Spelled(text, 2, "r", "for");
    } else if |text| == 3 && text[1] == 'u' {
      Spelled(text, 2, "n", "fun");
    }
  }

  lemma ReservedI(text: string)
    requires |text| > 0 && text[0] == 'i'
    ensures Keyword(text) ==
      if |text| == 2 && text[1] == 'f' then If
      else Identifier
  {
  }

  lemma KeywordI(text: string)
    requires |text| > 0 && text[0] == 'i'
    ensures IdentifierType(text) == Keyword(text)
  {
    ReservedI(text);
    if |text| == 2 { Spelled(text, 1, "f", "if"); }
  }

  lemma ReservedN(text: string)
    requires |text| > 0 && text[0] == 'n'
    ensures Keyword(text) ==
      if |text| == 3 && text[1] == 'i' && text[2] == 'l' then Nil
      else Identifier
  {
  }

  lemma KeywordN(text: string)
    requires |text| > 0 && text[0] == 'n'
    ensures IdentifierType(text) == Keyword(text)
  {
    ReservedN(text);
    if |text| == 3 { Spelled(text, 1, "il", "nil"); }
  }

  lemma ReservedO(text: string)
    requires |text| > 0 && text[0] == 'o'
    ensures Keyword(text) ==
      if |text| == 2 && text[1] == 'r' then Or
      else Identifier
  {
  }

  lemma KeywordO(text: string)
    requires |text| > 0 && text[0] == 'o'
    ensures IdentifierType(text) == Keyword(text)
  {
    ReservedO(text);
    if |text| == 2 { Spelled(text, 1, "r", "or"); }
  }

  lemma ReservedP(text: string)
    requires |text| > 0 && text[0] == 'p'
    ensures Keyword(text) ==
      if |text| == 5 && text[1] == 'r' && text[2] == 'i' && text[3] == 'n' && text[4] == 't' then Print
      else Identifier
  {
  }

  lemma KeywordP(text: string)
    requires |text| > 0 && text[0] == 'p'
    ensures IdentifierType(text) == Keyword(text)
  {
    ReservedP(text);
    if |text| == 5 { Spelled(text, 1, "rint", "print"); }
  }

  lemma ReservedR(text: string)
    requires |text| > 0 && text[0] == 'r'
    ensures Keyword(text) ==
      if |text| == 6 && text[1] == 'e' && text[2] == 't' && text[3] == 'u' && text[4] == 'r' && text[5] == 'n' then Return
      else Identifier
  {
  }

  lemma KeywordR(text: string)
    requires |text| > 0 && text[0] == 'r'
    ensures IdentifierType(text) == Keyword(text)
  {
    ReservedR(text);
    if |text| == 6 { Spelled(text, 1, "eturn", "return"); }
  }

  lemma ReservedS(text: string)
    requires |text| > 0 && text[0] == 's'
    ensures Keyword(text) ==
      if |text| == 5 && text[1] == 'u' && text[2] == 'p' && text[3] == 'e' && text[4] == 'r' then Super
      else Identifier
  {
  }

  lemma KeywordS(text: string)
    requires |text| > 0 && text[0] == 's'
    ensures IdentifierType(text) == Keyword(text)
  {
    ReservedS(text);
    if |text| == 5 { Spelled(text, 1, "uper", "super"); }
  }

  lemma ReservedT(text: string)
    requires |text| > 0 && text[0] == 't'
    ensures Keyword(text) ==
      if |text| == 4 && text[1] == 'h' && text[2] == 'i' && text[3] == 's' then This
      else if |text| == 4 && text[1] == 'r' && text[2] == 'u' && text[3] == 'e' then True
      else Identifier
  {
  }

  lemma KeywordT(text: string)
    requires |text| > 0 && text[0] == 't'
    ensures IdentifierType(text) == Keyword(text)
  {
    ReservedT(text);
    if |text| == 4 && text[1] == 'h' {
      Spelled(text, 2, "is", "this");
    } else if |text| == 4 && text[1] == 'r' {
      Spelled(text, 2, "ue", "true");
    }
  }

  lemma ReservedV(text: string)
    requires |text| > 0 && text[0] == 'v'
    ensures Keyword(text) ==
      if |text| == 3 && text[1] == 'a' && text[2] == 'r' then Var
      else Identifier
  {
  }

  lemma KeywordV(text: string)
    requires |text| > 0 && text[0] == 'v'
    ensures IdentifierType(text) == Keyword(text)
  {
    ReservedV(text);
    if |text| == 3 { Spelled(text, 1, "ar", "var"); }
  }

  lemma ReservedW(text: string)
    requires |text| > 0 && text[0] == 'w'
    ensures Keyword(text) ==
      if |text| == 5 && text[1] == 'h' && text[2] == 'i' && text[3] == 'l' && text[4] == 'e' then While
      else Identifier
  {
  }

  lemma KeywordW(text: string)
    requires |text| > 0 && text[0] == 'w'
    ensures IdentifierType(text) == Keyword(text)
  {
    ReservedW(text);
    if |text| == 5 { Spelled(text, 1, "hile", "while"); }
  }

  lemma KeywordOther(text: string)
    requires |text| > 0 && text[0] !in "acefinoprstvw"
    ensures IdentifierType(text) == Keyword(text)
  {
  }

  /** Prefixes and extensions of keywords are identifiers. */
  lemma NotKeywords()
    ensures IdentifierType("andy") == Identifier
    ensures IdentifierType("fo") == Identifier
    ensures IdentifierType("f") == Identifier
    ensures IdentifierType("classes") == Identifier
  {
    IdentifierTypeIsKeyword("andy");
    IdentifierTypeIsKeyword("fo");
    IdentifierTypeIsKeyword("f");
    IdentifierTypeIsKeyword("classes");
  }

  // ---------------------------------------------------------------------------
  // What one call of `scanToken` computes

  /**
   * The first position from `i` on that holds `stop`, or the end: where a `//`
   * comment ends (`stop` a newline) and where a string's closing quote is.
   */
  function RunTo(src: string, i: nat, stop: char): (j: nat)
    requires i <= |src|
    ensures i <= j <= |src|
    decreases |src| - i
  {
    if i == |src| || src[i] == stop then i else RunTo(src, i + 1, stop)
  }

  /** The number of newlines in `t`. */
  function Newlines(t: string): nat {
    if t == [] then 0 else (if t[0] == '\n' then 1 else 0) + Newlines(t[1..])
  }

  /** The cursor and line after `skipWhitespace`, starting at `i` on line `line`. */
  function SkipWs(src: string, i: nat, line: nat): (r: (nat, nat))
    requires i <= |src|
    ensures i <= r.0 <= |src|
    decreases |src| - i
  {
    if i == |src| then (i, line)
    else if src[i] == ' ' || src[i] == '\r' || src[i] == '\t' then SkipWs(src, i + 1, line)
    else if src[i] == '\n' then SkipWs(src, i + 1, line + 1)
    else if src[i] == '/' && Char(src, i + 1) == '/' then
      assert RunTo(src, i, '\n') == RunTo(src, i + 1, '\n');
      SkipWs(src, RunTo(src, i, '\n'), line)
    else (i, line)
  }

  /** The end of the run of identifier characters (letters, digits, `_`) from `i`. */
  function IdentEnd(src: string, i: nat): (j: nat)
    requires i <= |src|
    ensures i <= j <= |src|
    decreases |src| - i
  {
    if i < |src| && (IsAlpha(src[i]) || IsDigit(src[i])) then IdentEnd(src, i + 1) else i
  }

  /** The end of the run of digits from `i`. */
  function DigitsEnd(src: string, i: nat): (j: nat)
    requires i <= |src|
    ensures i <= j <= |src|
    decreases |src| - i
  {
    if i < |src| && IsDigit(src[i]) then DigitsEnd(src, i + 1) else i
  }

  /** `number`: the rest of the integer part, then a fraction only when a digit follows the `.`. */
  function NumberEnd(src: string, i: nat): (j: nat)
    requires i <= |src|
    ensures i <= j <= |src|
  {
    var d := DigitsEnd(src, i);
    if Char(src, d) == '.' && IsDigit(Char(src, d + 1)) then DigitsEnd(src, d + 1) else d
  }

  /** The token of a character that is a token on its own. */
  function SingleCharKind(c: char): Option<TokenType> {
    match c
    case '(' => Some(LeftParen)
    case ')' => Some(RightParen)
    case '{' => Some(LeftBrace)
    case '}' => Some(RightBrace)
    case ';' => Some(Semicolon)
    case ',' => Some(Comma)
    case '.' => Some(Dot)
    case '-' => Some(Minus)
    case '+' => Some(Plus)
    case '/' => Some(Slash)
    case '*' => Some(Star)
    case _ => None
  }

  /** The operators that are one character, or two when a `=` follows. */
  predicate IsTwoCharLead(c: char) {
    c == '!' || c == '=' || c == '<' || c == '>'
  }

  function TwoCharKind(c: char, withEqual: bool): TokenType
    requires IsTwoCharLead(c)
  {
    match c
    case '!' => if withEqual then BangEqual else Bang
    case '=' => if withEqual then EqualEqual else Equal
    case '<' => if withEqual then LessEqual else Less
    case '>' => if withEqual then GreaterEqual else Greater
  }

  /** The scanner state and the token after one `scanToken`. */
  datatype Step = Step(token: Token, start: nat, current: nat, line: nat)

  /** `scanToken` from cursor `i` on line `line`. */
  function ScanAt(src: string, i: nat, line: nat): (r: Step)
    requires i <= |src|
    ensures i <= r.start <= r.current <= |src|
  {
    var (s, l) := SkipWs(src, i, line);
    TokenAt(src, s, l)
  }

  /** The token that starts at `s`, once blanks and comments are skipped. */
  function TokenAt(src: string, s: nat, l: nat): (r: Step)
    requires s <= |src|
    ensures r.start == s <= r.current <= |src|
  {
    if s == |src| then Step(Token(Eof, Slice(s, 0), l), s, s, l)
    else
      var c := src[s];
      if IsAlpha(c) then
        var e := IdentEnd(src, s + 1);
        Step(Token(IdentifierType(src[s..e]), Slice(s, e - s), l), s, e, l)
      else if IsDigit(c) then
        var e := NumberEnd(src, s + 1);
        Step(Token(Number, Slice(s, e - s), l), s, e, l)
      else if IsTwoCharLead(c) then
        var two := Char(src, s + 1) == '=';
        var e := if two then s + 2 else s + 1;
        Step(Token(TwoCharKind(c, two), Slice(s, e - s), l), s, e, l)
      else if c == '"' then
        var e := RunTo(src, s + 1, '"');
        var l' := l + Newlines(src[s + 1..e]);
        if e == |src| then Step(Token(Error, Message(UnterminatedString), l'), s, e, l')
        else Step(Token(String, Slice(s, e + 1 - s), l'), s, e + 1, l')
      else
        match SingleCharKind(c)
        case Some(kind) => Step(Token(kind, Slice(s, 1), l), s, s + 1, l)
        case None => Step(Token(Error, Message(UnexpectedCharacter), l), s, s + 1, l)
  }

  // ---------------------------------------------------------------------------
  // Runs: what the helper scans stop at

  lemma {:induction false} RunToStops(src: string, i: nat, stop: char)
    requires i <= |src|
    ensures forall k :: i <= k < RunTo(src, i, stop) ==> src[k] != stop
    ensures RunTo(src, i, stop) == |src| || src[RunTo(src, i, stop)] == stop
    decreases |src| - i
  {
    if i < |src| && src[i] != stop {
      RunToStops(src, i + 1, stop);
    }
  }

  lemma {:induction false} DigitsRun(src: string, i: nat)
    requires i <= |src|
    ensures forall k :: i <= k < DigitsEnd(src, i) ==> IsDigit(src[k])
    ensures !IsDigit(Char(src, DigitsEnd(src, i)))
    decreases |src| - i
  {
    if i < |src| && IsDigit(src[i]) {
      DigitsRun(src, i + 1);
    }
  }

  lemma {:induction false} IdentRun(src: string, i: nat)
    requires i <= |src|
    ensures forall k :: i <= k < IdentEnd(src, i) ==> IsAlpha(src[k]) || IsDigit(src[k])
    ensures !IsAlpha(Char(src, IdentEnd(src, i))) && !IsDigit(Char(src, IdentEnd(src, i)))
    decreases |src| - i
  {
    if i < |src| && (IsAlpha(src[i]) || IsDigit(src[i])) {
      IdentRun(src, i + 1);
    }
  }

  lemma {:induction false} NewlinesAppend(t: string, u: string)
    ensures Newlines(t + u) == Newlines(t) + Newlines(u)
    decreases |t|
  {
    if t != [] {
      assert (t + u)[1..] == t[1..] + u;
      NewlinesAppend(t[1..], u);
    } else {
      assert t + u == u;
    }
  }

  lemma {:induction false} NoNewlines(t: string)
    requires '\n' !in t
    ensures Newlines(t) == 0
    decreases |t|
  {
    if t != [] {
      assert t[0] in t;
      assert forall c :: c in t[1..] ==> c in t;
      NoNewlines(t[1..]);
    }
  }

  /** Newlines counted over two adjacent slices. */
  lemma NewlinesSplit(src: string, i: nat, k: nat, j: nat)
    requires i <= k <= j <= |src|
    ensures Newlines(src[i..j]) == Newlines(src[i..k]) + Newlines(src[k..j])
  {
    assert src[i..j] == src[i..k] + src[k..j];
    NewlinesAppend(src[i..k], src[k..j]);
  }

  // ---------------------------------------------------------------------------
  // skipWhitespace

  /** `skipWhitespace` adds one to the line for each newline it consumes, and for nothing else. */
  lemma {:induction false} SkipWsCountsLines(src: string, i: nat, line: nat)
    requires i <= |src|
    ensures SkipWs(src, i, line).1 == line + Newlines(src[i..SkipWs(src, i, line).0])
    decreases |src| - i
  {
    var r := SkipWs(src, i, line);
    if i == |src| {
      assert src[i..r.0] == [];
    } else if src[i] == ' ' || src[i] == '\r' || src[i] == '\t' || src[i] == '\n' {
      SkipWsCountsLines(src, i + 1, if src[i] == '\n' then line + 1 else line);
      NewlinesSplit(src, i, i + 1, r.0);
      assert src[i..i + 1] == [src[i]];
    } else if src[i] == '/' && Char(src, i + 1) == '/' {
      var e := RunTo(src, i, '\n');
      SkipWsCountsLines(src, e, line);
      NewlinesSplit(src, i, e, r.0);
      RunToStops(src, i, '\n');
      assert '\n' !in src[i..e];
      NoNewlines(src[i..e]);
    } else {
      assert src[i..r.0] == [];
    }
  }

  /**
   * `skipWhitespace` stops at the end, or at a character that is not a blank,
   * not a newline and not the start of a `//` comment.
   */
  lemma {:induction false} SkipWsStops(src: string, i: nat, line: nat)
    requires i <= |src|
    ensures var j := SkipWs(src, i, line).0;
      j == |src| ||
      (src[j] !in " \r\t\n" && !(src[j] == '/' && Char(src, j + 1) == '/'))
    decreases |src| - i
  {
    if i < |src| {
      if src[i] == ' ' || src[i] == '\r' || src[i] == '\t' {
        SkipWsStops(src, i + 1, line);
      } else if src[i] == '\n' {
        SkipWsStops(src, i + 1, line + 1);
      } else if src[i] == '/' && Char(src, i + 1) == '/' {
        SkipWsStops(src, RunTo(src, i, '\n'), line);
      }
    }
  }

  /** A `//` comment is skipped up to the newline that ends it, which is then counted. */
  lemma CommentStopsAtNewline(src: string, i: nat)
    requires i <= |src|
    ensures var e := RunTo(src, i, '\n');
      '\n' !in src[i..e] && (e == |src| || src[e] == '\n')
  {
    RunToStops(src, i, '\n');
  }

  // ---------------------------------------------------------------------------
  // scanToken

  /**
   * At the end of the input the token is `Eof`, empty, and scanning again
   * from where it stopped gives the same step; before the end every call
   * consumes at least one character.
   */
  lemma ScanEof(src: string, i: nat, line: nat)
    requires i <= |src|
    ensures var r := ScanAt(src, i, line);
      (r.token.kind == Eof <==> r.start == |src|) &&
      (r.token.kind == Eof ==> r.token.lexeme == Slice(|src|, 0) && r.current == |src| &&
                               ScanAt(src, r.current, r.line) == r) &&
      (r.token.kind != Eof ==> r.start < r.current)
  {
    var r := ScanAt(src, i, line);
    if r.start == |src| {
      assert ScanAt(src, r.current, r.line).start == |src|;
    }
  }

  /** The token's text is the slice of the source between `start` and `current`. */
  lemma ScanLexeme(src: string, i: nat, line: nat)
    requires i <= |src|
    ensures var r := ScanAt(src, i, line);
      r.token.kind != Error ==>
        r.token.lexeme == Slice(r.start, r.current - r.start) &&
        Text(src, r.token) == src[r.start..r.current]
  {
  }

  /**
   * An error token is either an unterminated string, which ran to the end of
   * the input, or an unexpected character, which was consumed; and every
   * character that starts no token is reported as unexpected.
   */
  lemma ScanErrors(src: string, i: nat, line: nat)
    requires i <= |src|
    ensures var r := ScanAt(src, i, line);
      r.token.kind == Error ==>
        (r.token.lexeme == Message(UnterminatedString) && src[r.start] == '"' && r.current == |src|) ||
        (r.token.lexeme == Message(UnexpectedCharacter) && r.current == r.start + 1 &&
         !IsAlpha(src[r.start]) && !IsDigit(src[r.start]) && src[r.start] != '"' &&
         !IsTwoCharLead(src[r.start]) && SingleCharKind(src[r.start]).None?)
    ensures var r := ScanAt(src, i, line);
      r.start < |src| && !IsAlpha(src[r.start]) && !IsDigit(src[r.start]) && src[r.start] != '"' &&
      !IsTwoCharLead(src[r.start]) && SingleCharKind(src[r.start]).None? ==>
        r.token.kind == Error && r.token.lexeme == Message(UnexpectedCharacter) && r.current == r.start + 1
  {
  }

  /** `!`, `=`, `<` and `>` take the following character exactly when it is `=`. */
  lemma ScanTwoChar(src: string, i: nat, line: nat)
    requires i <= |src|
    ensures var r := ScanAt(src, i, line);
      r.start < |src| && IsTwoCharLead(src[r.start]) ==>
        (r.current == r.start + 2 <==> Char(src, r.start + 1) == '=') &&
        (r.current == r.start + 1 <==> Char(src, r.start + 1) != '=') &&
        r.token.kind == TwoCharKind(src[r.start], Char(src, r.start + 1) == '=')
  {
  }

  /** Each operator pair is told apart: the `=` form is a different token. */
  lemma TwoCharKindsDiffer(c: char)
    requires IsTwoCharLead(c)
    ensures TwoCharKind(c, true) != TwoCharKind(c, false)
    ensures TwoCharKind(c, true) in {BangEqual, EqualEqual, LessEqual, GreaterEqual}
  {
  }

  /**
   * An identifier or keyword token is a maximal run of letters, digits and
   * `_` that starts with a letter or `_`, and its kind is the keyword it
   * spells, if any.
   */
  lemma ScanIdentifier(src: string, i: nat, line: nat)
    requires i <= |src|
    ensures var r := ScanAt(src, i, line);
      r.start < |src| && IsAlpha(src[r.start]) ==>
        (forall k :: r.start < k < r.current ==> IsAlpha(src[k]) || IsDigit(src[k])) &&
        !IsAlpha(Char(src, r.current)) && !IsDigit(Char(src, r.current)) &&
        r.token.kind == Keyword(src[r.start..r.current])
  {
    var r := ScanAt(src, i, line);
    if r.start < |src| && IsAlpha(src[r.start]) {
      IdentRun(src, r.start + 1);
      IdentifierTypeIsKeyword(src[r.start..r.current]);
    }
  }

  /**
   * A number token is a run of digits, then optionally a `.` and at least one
   * more digit; a `.` that is not followed by a digit is left for the next
   * token.  `d` is where the integer part ends.
   */
  lemma ScanNumber(src: string, i: nat, line: nat) returns (d: nat)
    requires i <= |src|
    requires var r := ScanAt(src, i, line); r.token.kind == Number
    ensures var r := ScanAt(src, i, line);
      r.start < d <= r.current &&
      (forall k :: r.start <= k < d ==> IsDigit(src[k])) &&
      !IsDigit(Char(src, d)) &&
      (if d == r.current then !(Char(src, d) == '.' && IsDigit(Char(src, d + 1)))
       else src[d] == '.' && d + 1 < r.current &&
            (forall k :: d < k < r.current ==> IsDigit(src[k])) &&
            !IsDigit(Char(src, r.current)))
  {
    var r := ScanAt(src, i, line);
    d := DigitsEnd(src, r.start + 1);
    DigitsRun(src, r.start + 1);
    if Char(src, d) == '.' && IsDigit(Char(src, d + 1)) {
      DigitsRun(src, d + 1);
    }
  }

  /** How the scan of a string literal that starts at `s` ends. */
  lemma StringScan(src: string, s: nat)
    requires s < |src| && src[s] == '"'
    ensures var e := RunTo(src, s + 1, '"');
      (forall k :: s < k < e ==> src[k] != '"') && (e == |src| || src[e] == '"') &&
      Newlines(src[s..e]) == Newlines(src[s + 1..e]) &&
      (e < |src| ==> Newlines(src[s..e + 1]) == Newlines(src[s + 1..e]))
  {
    var e := RunTo(src, s + 1, '"');
    RunToStops(src, s + 1, '"');
    NewlinesSplit(src, s, s + 1, e);
    assert src[s..s + 1] == ['"'];
    if e < |src| {
      NewlinesSplit(src, s, e, e + 1);
      assert src[e..e + 1] == ['"'];
    }
  }

  /**
   * A string token runs from the opening quote to the next quote, both
   * included, and the line moves on by the newlines inside it.
   */
  lemma ScanString(src: string, i: nat, line: nat)
    requires i <= |src|
    ensures var r := ScanAt(src, i, line);
      r.token.kind == String ==>
        src[r.start] == '"' && src[r.current - 1] == '"' && r.current >= r.start + 2 &&
        (forall k :: r.start < k < r.current - 1 ==> src[k] != '"') &&
        r.line == SkipWs(src, i, line).1 + Newlines(src[r.start..r.current])
  {
    var r := ScanAt(src, i, line);
    if r.token.kind == String {
      StringScan(src, r.start);
    }
  }

  /**
   * Without a closing quote the scan of a string runs to the end of the
   * input and reports "Unterminated string.".
   */
  lemma ScanUnterminatedString(src: string, i: nat, line: nat)
    requires i <= |src|
    ensures var r := ScanAt(src, i, line);
      r.start < |src| && src[r.start] == '"' && r.token.kind != String ==>
        r.token == Token(Error, Message(UnterminatedString), r.line) &&
        r.current == |src| && (forall k :: r.start < k < |src| ==> src[k] != '"') &&
        r.line == SkipWs(src, i, line).1 + Newlines(src[r.start..r.current])
  {
    var r := ScanAt(src, i, line);
    if r.start < |src| && src[r.start] == '"' {
      StringScan(src, r.start);
    }
  }

  /** Tokens other than strings, starting elsewhere than on a newline, hold no newline. */
  lemma OtherTokenLines(src: string, s: nat, l: nat)
    requires s <= |src| && (s == |src| || (src[s] != '"' && src[s] != '\n'))
    ensures var r := TokenAt(src, s, l);
      r.line == l && Newlines(src[s..r.current]) == 0
  {
    var r := TokenAt(src, s, l);
    if s < |src| {
      if IsAlpha(src[s]) {
        IdentRun(src, s + 1);
      } else if IsDigit(src[s]) {
        DigitsRun(src, s + 1);
        var d := DigitsEnd(src, s + 1);
        if Char(src, d) == '.' && IsDigit(Char(src, d + 1)) {
          DigitsRun(src, d + 1);
        }
      }
      assert forall k :: s <= k < r.current ==> src[k] != '\n';
      assert '\n' !in src[s..r.current];
      NoNewlines(src[s..r.current]);
    } else {
      assert src[s..r.current] == [];
    }
  }

  /** The line never goes down: it moves on by exactly the newlines consumed. */
  lemma ScanLine(src: string, i: nat, line: nat)
    requires i <= |src|
    ensures var r := ScanAt(src, i, line);
      r.token.line == r.line && r.line == line + Newlines(src[i..r.current])
  {
    var r := ScanAt(src, i, line);
    SkipWsCountsLines(src, i, line);
    NewlinesSplit(src, i, r.start, r.current);
    if r.start < |src| && src[r.start] == '"' {
      ScanString(src, i, line);
      ScanUnterminatedString(src, i, line);
    } else {
      SkipWsStops(src, i, line);
      OtherTokenLines(src, r.start, SkipWs(src, i, line).1);
    }
  }

  // ---------------------------------------------------------------------------
  // The scanner

  /** The global `scanner` of scanner.c: a cursor over the source. */
  class Scanner {
    const src: string
    var start: nat
    var current: nat
    var line: nat

    ghost predicate Valid()
      reads this
    {
      NulFree(src) && start <= current <= |src|
    }

    /** `initScanner`: both cursors at the beginning, on line 1. */
    constructor (source: string)
      requires NulFree(source)
      ensures Valid() && src == source
      ensures start == 0 && current == 0 && line == 1
    {
      src := source;
      start := 0;
      current := 0;
      line := 1;
    }

    /** `isAtEnd`: the cursor is on the terminating NUL. */
    function IsAtEnd(): (b: bool)
      reads this
      requires Valid()
      ensures b <==> current == |src|
    {
      Char(src, current) == '\0'
    }

    /** `peek`: the character under the cursor; it is NUL exactly at the end of the input. */
    function Peek(): (c: char)
      reads this
      requires Valid()
      ensures current < |src| ==> c == src[current]
      ensures c == '\0' <==> current == |src|
    {
      Char(src, current)
    }

    /** `peekNext`: the character after the cursor, or NUL when the cursor is on the NUL. */
    function PeekNext(): (c: char)
      reads this
      requires Valid()
      ensures c == Char(src, current + 1)
    {
      if IsAtEnd() then '\0' else Char(src, current + 1)
    }

    /** `advance`: consume the character under the cursor and return it. */
    method Advance() returns (c: char)
      requires Valid() && current < |src|
      modifies this
      ensures Valid() && c == src[old(current)] && current == old(current) + 1
      ensures start == old(start) && line == old(line)
    {
      current := current + 1;
      c := src[current - 1];
    }

    /** `match`: consume the next character only if it is `expected`. */
    method Match(expected: char) returns (matched: bool)
      requires Valid() && expected != '\0'
      modifies this
      ensures Valid() && start == old(start) && line == old(line)
      ensures matched <==> Char(src, old(current)) == expected
      ensures current == old(current) + (if matched then 1 else 0)
    {
      if IsAtEnd() {
        return false;
      }
      if src[current] != expected {
        return false;
      }
      current := current + 1;
      return true;
    }

    /** `makeToken`: the token of kind `kind` spanning `start` to `current`. */
    function MakeToken(kind: TokenType): (t: Token)
      reads this
      requires Valid()
      ensures Text(src, t) == src[start..current] && t.line == line
    {
      Token(kind, Slice(start, current - start), line)
    }

    /** `errorToken`: an error token whose text is the message. */
    function ErrorToken(message: string): (t: Token)
      reads this
      ensures t.kind == Error && Text(src, t) == message && t.line == line
    {
      Token(Error, Message(message), line)
    }

    /** `skipWhitespace`: blanks, newlines (counted) and `//` comments. */
    method SkipWhitespace()
      requires Valid()
      modifies this
      ensures Valid() && start == old(start)
      ensures (current, line) == SkipWs(src, old(current), old(line))
    {
      while true
        invariant Valid() && start == old(start)
        invariant SkipWs(src, current, line) == SkipWs(src, old(current), old(line))
        decreases |src| - current
      {
        var c := Peek();
        if c == ' ' || c == '\r' || c == '\t' {
          c := Advance();
        } else if c == '\n' {
          line := line + 1;
          c := Advance();
        } else if c == '/' {
          if PeekNext() == '/' {
            ghost var from := current;
            label Comment:
            assert RunTo(src, from, '\n') == RunTo(src, from + 1, '\n');
            assert SkipWs(src, from, line) == SkipWs(src, RunTo(src, from, '\n'), line);
            while Peek() != '\n' && !IsAtEnd()
              invariant Valid() && start == old(start) && from <= current
              invariant line == old@Comment(line)
              invariant RunTo(src, current, '\n') == RunTo(src, from, '\n')
              decreases |src| - current
            {
              c := Advance();
            }
            assert current == RunTo(src, from, '\n');
          } else {
            return;
          }
        } else {
          return;
        }
      }
    }

    /** `identifier`: the rest of the word, then its keyword kind. */
    method Identifier() returns (t: Token)
      requires Valid() && start < current
      modifies this
      ensures Valid() && start == old(start) && line == old(line)
      ensures current == IdentEnd(src, old(current))
      ensures t == Token(IdentifierType(src[start..current]), Slice(start, current - start), line)
    {
      while IsAlpha(Peek()) || IsDigit(Peek())
        invariant Valid() && start == old(start) && line == old(line)
        invariant IdentEnd(src, current) == IdentEnd(src, old(current))
        decreases |src| - current
      {
        var _ := Advance();
      }
      t := MakeToken(IdentifierType(src[start..current]));
    }

    /** `number`: the digits, then a fraction when a digit follows the `.`. */
    method Number() returns (t: Token)
      requires Valid()
      modifies this
      ensures Valid() && start == old(start) && line == old(line)
      ensures current == NumberEnd(src, old(current))
      ensures t == Token(TokenType.Number, Slice(start, current - start), line)
    {
      while IsDigit(Peek())
        invariant Valid() && start == old(start) && line == old(line)
        invariant DigitsEnd(src, current) == DigitsEnd(src, old(current))
        decreases |src| - current
      {
        var _ := Advance();
      }
      if Peek() == '.' && IsDigit(PeekNext()) {
        var _ := Advance();
        ghost var from := current;
        while IsDigit(Peek())
          invariant Valid() && start == old(start) && line == old(line)
          invariant DigitsEnd(src, current) == DigitsEnd(src, from)
          decreases |src| - current
        {
          var _ := Advance();
        }
      }
      t := MakeToken(TokenType.Number);
    }

    /** `string`: up to the closing quote, counting newlines; an error at the end of input. */
    method String() returns (t: Token)
      requires Valid()
      modifies this
      ensures Valid() && start == old(start)
      ensures var e := RunTo(src, old(current), '"');
        line == old(line) + Newlines(src[old(current)..e]) &&
        (if e == |src| then current == e && t == Token(Error, Message(UnterminatedString), line)
         else current == e + 1 && t == Token(TokenType.String, Slice(start, current - start), line))
    {
      while Peek() != '"' && !IsAtEnd()
        invariant Valid() && start == old(start) && old(current) <= current
        invariant RunTo(src, current, '"') == RunTo(src, old(current), '"')
        invariant line == old(line) + Newlines(src[old(current)..current])
        decreases |src| - current
      {
        NewlinesSplit(src, old(current), current, current + 1);
        assert src[current..current + 1] == [src[current]];
        if Peek() == '\n' {
          line := line + 1;
        }
        var _ := Advance();
      }
      if IsAtEnd() {
        t := ErrorToken(UnterminatedString);
        return;
      }
      var _ := Advance();
      t := MakeToken(TokenType.String);
    }
  
    /**
     * `scanToken`: skip blanks and comments, then scan one token. The new
     * cursors, line and token are those of `ScanAt`, about which the lemmas
     * above state what each token is.
     */
    method ScanToken() returns (t: Token)
      requires Valid()
      modifies this
      ensures Valid()
      ensures Step(t, start, current, line) == ScanAt(src, old(current), old(line))
    {
      SkipWhitespace();
      start := current;
      assert ScanAt(src, old(current), old(line)) == TokenAt(src, start, line);
      if IsAtEnd() {
        return MakeToken(Eof);
      }
      var c := Advance();
      if IsAlpha(c) {
        t := Identifier();
        return;
      }
      if IsDigit(c) {
        t := Number();
        return;
      }
      match c
      case '(' => t := MakeToken(LeftParen);
      case ')' => t := MakeToken(RightParen);
      case '{' => t := MakeToken(LeftBrace);
      case '}' => t := MakeToken(RightBrace);
      case ';' => t := MakeToken(Semicolon);
      case ',' => t := MakeToken(Comma);
      case '.' => t := MakeToken(Dot);
      case '-' => t := MakeToken(Minus);
      case '+' => t := MakeToken(Plus);
      case '/' => t := MakeToken(Slash);
      case '*' => t := MakeToken(Star);
      case '!' =>
        var two := Match('=');
        t := MakeToken(if two then BangEqual else Bang);
      case '=' =>
        var two := Match('=');
        t := MakeToken(if two then EqualEqual else Equal);
      case '<' =>
        var two := Match('=');
        t := MakeToken(if two then LessEqual else Less);
      case '>' =>
        var two := Match('=');
        t := MakeToken(if two then GreaterEqual else Greater);
      case '"' => t := String();
      case _ => t := ErrorToken(UnexpectedCharacter);
    }
  }
}
