// SQL text cut into tokens, each with its place in the text.
module Lexer {
  import opened Bytes
  import opened Results
  import Seqs

  datatype TokenType =
    | EndOfInput | Invalid
    | Identifier | IntegerLiteral | FloatingPointLiteral | StringLiteral
    | Create | Index | On | Database | Use | Table | IntWord | DoubleWord | VarcharWord | Primary | Key | Unique
    | Is | Not | Null | Insert | Into | ValuesWord | Select | Explain | Delete | Update | Set | From | Where | And | Or
    | LeftParen | RightParen | Comma | Semicolon | Dot
    | Equal | NotEqual | LessThan | LessThanOrEqual | GreaterThan | GreaterThanOrEqual | Plus | Minus | Star | Slash

  datatype Lexeme = Lexeme(kind: TokenType, text: seq<Byte>)

  // Offsets count from zero, lines and columns from one.
  datatype Location = Location(offset: nat, line: nat, column: nat)

  datatype Token = Token(lexeme: Lexeme, location: Location)

  const NEWLINE: Byte := 10
  const SPACE: Byte := 32
  const QUOTE: Byte := 39
  const POINT: Byte := 46

  // ---------- Characters ----------

  predicate IsLetter(c: Byte) {
    65 <= c <= 90 || 97 <= c <= 122
  }

  predicate IsDigit(c: Byte) {
    48 <= c <= 57
  }

  predicate IsSpace(c: Byte) {
    9 <= c <= 13 || c == SPACE
  }

  predicate IdentifierStart(c: Byte) {
    IsLetter(c) || c == 95
  }

  predicate IdentifierPart(c: Byte) {
    IdentifierStart(c) || IsDigit(c)
  }

  function Upper(c: Byte): Byte {
    if 97 <= c <= 122 then c - 32 else c
  }

  function Uppercase(text: seq<Byte>): (r: seq<Byte>)
    ensures |r| == |text|
  {
    seq(|text|, i requires 0 <= i < |text| => Upper(text[i]))
  }

  // The text of a keyword.
  function Word(kind: TokenType): seq<Byte> {
    match kind
    case And => [65, 78, 68]
    case Or => [79, 82]
    case Is => [73, 83]
    case Not => [78, 79, 84]
    case Null => [78, 85, 76, 76]
    case Create => [67, 82, 69, 65, 84, 69]
    case Index => [73, 78, 68, 69, 88]
    case On => [79, 78]
    case Database => [68, 65, 84, 65, 66, 65, 83, 69]
    case Use => [85, 83, 69]
    case Table => [84, 65, 66, 76, 69]
    case IntWord => [73, 78, 84]
    case DoubleWord => [68, 79, 85, 66, 76, 69]
    case VarcharWord => [86, 65, 82, 67, 72, 65, 82]
    case Primary => [80, 82, 73, 77, 65, 82, 89]
    case Key => [75, 69, 89]
    case Unique => [85, 78, 73, 81, 85, 69]
    case Insert => [73, 78, 83, 69, 82, 84]
    case Into => [73, 78, 84, 79]
    case ValuesWord => [86, 65, 76, 85, 69, 83]
    case Select => [83, 69, 76, 69, 67, 84]
    case Explain => [69, 88, 80, 76, 65, 73, 78]
    case Delete => [68, 69, 76, 69, 84, 69]
    case Update => [85, 80, 68, 65, 84, 69]
    case Set => [83, 69, 84]
    case From => [70, 82, 79, 77]
    case Where => [87, 72, 69, 82, 69]
    case _ => []
  }

  predicate Spells(word: seq<Byte>, kind: TokenType) {
    word == Word(kind)
  }

  const KEYWORDS: seq<TokenType> := [
    And, Or, Is, Not, Null, Create, Index, On, Database, Use, Table, IntWord, DoubleWord, VarcharWord,
    Primary, Key, Unique, Insert, Into, ValuesWord, Select, Explain, Delete, Update, Set, From, Where
  ]

  // The one of the keywords that the word spells; Identifier if it spells none.
  function Spelled(word: seq<Byte>, kinds: seq<TokenType>): (kind: TokenType)
    ensures kind == Identifier || kind in kinds
  {
    if kinds == [] then Identifier
    else if Spells(word, kinds[0]) then kinds[0]
    else Spelled(word, kinds[1..])
  }

  // Keywords are recognised whatever their case; any other word is an identifier.
  function WordType(text: seq<Byte>): TokenType {
    Spelled(Uppercase(text), KEYWORDS)
  }

  // ---------- One token ----------

  // How many characters at the front satisfy p.
  function Run(s: seq<Byte>, p: Byte -> bool): (n: nat)
    ensures n <= |s|
    ensures forall i :: 0 <= i < n ==> p(s[i])
    ensures n < |s| ==> !p(s[n])
  {
    if s == [] || !p(s[0]) then 0 else 1 + Run(s[1..], p)
  }

  // The rest of a string literal after its opening quote, closing quote included; None when it is never closed.
  function StringRest(s: seq<Byte>): (n: Option<nat>)
    ensures n.Some? ==> 0 < n.value <= |s|
  {
    if s == [] then None
    else if s[0] == QUOTE && (|s| == 1 || s[1] != QUOTE) then Some(1)
    else
      var skip := if s[0] == QUOTE then 2 else 1;
      match StringRest(s[skip..])
      case None => None
      case Some(n) => Some(n + skip)
  }

  function NumberLength(s: seq<Byte>): (n: nat)
    requires s != [] && IsDigit(s[0])
    ensures 0 < n <= |s|
  {
    Run(s, IsDigit)
  }

  predicate HasFraction(s: seq<Byte>)
    requires s != [] && IsDigit(s[0])
  {
    var n := NumberLength(s);
    n + 1 < |s| && s[n] == POINT && IsDigit(s[n + 1])
  }

  // The type and the length of the first token of a text that does not start with white space.
  function Scan(s: seq<Byte>): (r: (TokenType, nat))
    requires s != []
    ensures 0 < r.1 <= |s|
  {
    var c := s[0];
    if IdentifierStart(c) then
      var n := 1 + Run(s[1..], IdentifierPart);
      (WordType(s[..n]), n)
    else if IsDigit(c) then
      var n := NumberLength(s);
      if HasFraction(s) then (FloatingPointLiteral, n + 1 + Run(s[n + 1..], IsDigit)) else (IntegerLiteral, n)
    else if c == QUOTE then
      (match StringRest(s[1..])
       case None => (Invalid, |s|)
       case Some(n) => (StringLiteral, n + 1))
    else ScanSymbol(s)
  }

  function ScanSymbol(s: seq<Byte>): (r: (TokenType, nat))
    requires s != []
    ensures 0 < r.1 <= |s|
  {
    var next: int := if |s| > 1 then s[1] else 0;
    match s[0] as int
    case 40 => (LeftParen, 1)
    case 41 => (RightParen, 1)
    case 44 => (Comma, 1)
    case 59 => (Semicolon, 1)
    case 46 => (Dot, 1)
    case 61 => (Equal, 1)
    case 33 => if next == 61 then (NotEqual, 2) else (Invalid, 1)
    case 60 => if next == 61 then (LessThanOrEqual, 2) else if next == 62 then (NotEqual, 2) else (LessThan, 1)
    case 62 => if next == 61 then (GreaterThanOrEqual, 2) else (GreaterThan, 1)
    case 43 => (Plus, 1)
    case 45 => (Minus, 1)
    case 42 => (Star, 1)
    case 47 => (Slash, 1)
    case _ => (Invalid, 1)
  }

  // ---------- The whole text ----------

  ghost function Lex(s: seq<Byte>): (r: seq<Lexeme>)
    ensures r != [] && r[|r| - 1] == Lexeme(EndOfInput, [])
    decreases |s|
  {
    if s == [] then [Lexeme(EndOfInput, [])]
    else if IsSpace(s[0]) then Lex(s[1..])
    else [Lexeme(Scan(s).0, s[..Scan(s).1])] + Lex(s[Scan(s).1..])
  }

  ghost function Lexemes(tokens: seq<Token>): (r: seq<Lexeme>)
    ensures |r| == |tokens|
  {
    seq(|tokens|, i requires 0 <= i < |tokens| => tokens[i].lexeme)
  }

  // ---------- Places ----------

  ghost function Newlines(s: seq<Byte>): nat {
    if s == [] then 0 else Newlines(s[..|s| - 1]) + if s[|s| - 1] == NEWLINE then 1 else 0
  }

  // Where the line that ends with s starts.
  ghost function LineStart(s: seq<Byte>): (n: nat)
    ensures n <= |s|
  {
    if s == [] then 0 else if s[|s| - 1] == NEWLINE then |s| else LineStart(s[..|s| - 1])
  }

  ghost function LocationOf(input: seq<Byte>, offset: nat): Location
    requires offset <= |input|
  {
    Location(offset, 1 + Newlines(input[..offset]), 1 + offset - LineStart(input[..offset]))
  }

  ghost predicate InPlace(input: seq<Byte>, t: Token) {
    && t.location.offset + |t.lexeme.text| <= |input|
    && t.location == LocationOf(input, t.location.offset)
    && input[t.location.offset..t.location.offset + |t.lexeme.text|] == t.lexeme.text
  }

  ghost predicate AllInPlace(input: seq<Byte>, tokens: seq<Token>) {
    forall i :: 0 <= i < |tokens| ==> InPlace(input, tokens[i])
  }

  // The token that begins at `start` by the rules for one token, and ends at `end`.
  ghost predicate IsNext(input: seq<Byte>, start: nat, t: Token, end: nat)
    requires start < |input|
  {
    var (kind, length) := Scan(input[start..]);
    end == start + length && t.lexeme == Lexeme(kind, input[start..end]) && t.location.offset == start
  }

  ghost predicate Blank(input: seq<Byte>, start: nat, end: nat) {
    start <= end <= |input| && forall i :: start <= i < end ==> 9 <= input[i] <= 13 || input[i] == 32
  }

  // Where the next token may begin.
  ghost function EndOf(tokens: seq<Token>): nat {
    if tokens == [] then 0 else tokens[|tokens| - 1].location.offset + |tokens[|tokens| - 1].lexeme.text|
  }

  // Between one token and the next there is nothing but white space, and each is the next by the rules for one token.
  ghost predicate Tiled(input: seq<Byte>, tokens: seq<Token>) {
    forall k :: 0 <= k < |tokens| ==> Follows(input, tokens[..k], tokens[k])
  }

  ghost predicate Follows(input: seq<Byte>, before: seq<Token>, t: Token) {
    && Blank(input, EndOf(before), t.location.offset)
    && if t.location.offset == |input| then t.lexeme == Lexeme(EndOfInput, [])
       else
         && !(9 <= input[t.location.offset] <= 13) && input[t.location.offset] != 32
         && IsNext(input, t.location.offset, t, t.location.offset + |t.lexeme.text|)
  }

  class Lexer {
    const input: seq<Byte>
    var current: nat
    var line: nat
    var column: nat
    var tokenStart: nat
    var tokenLocation: Location

    constructor (input: seq<Byte>)
      ensures this.input == input && current == 0 && Valid()
    {
      this.input := input;
      current, line, column, tokenStart := 0, 1, 1, 0;
      tokenLocation := Location(0, 1, 1);
    }

    // The line and column are those of the next character.
    ghost predicate Valid()
      reads this
    {
      current <= |input| && Location(current, line, column) == LocationOf(input, current)
    }

    ghost predicate InToken()
      reads this
    {
      Valid() && tokenStart <= current && tokenLocation == LocationOf(input, tokenStart)
    }

    ghost function Rest(): seq<Byte>
      reads this
      requires current <= |input|
    {
      input[current..]
    }

    function Peek(lookahead: nat): int
      reads this
    {
      if current + lookahead < |input| then input[current + lookahead] else 0
    }

    method Advance() returns (c: Byte)
      requires Valid() && current < |input|
      modifies this`current, this`line, this`column
      ensures Valid() && current == old(current) + 1 && c == input[old(current)]
    {
      c := input[current];
      assert input[..current + 1][..current] == input[..current];
      current := current + 1;
      if c == NEWLINE {
        line := line + 1;
        column := 1;
      } else {
        column := column + 1;
      }
    }

    method Match(expected: Byte) returns (matched: bool)
      requires Valid()
      modifies this`current, this`line, this`column
      ensures Valid() && matched == (old(current) < |input| && input[old(current)] == expected)
      ensures current == old(current) + if matched then 1 else 0
    {
      if current == |input| || Peek(0) != expected {
        return false;
      }
      var c := Advance();
      return true;
    }

    method SkipWhitespace()
      requires Valid()
      modifies this`current, this`line, this`column
      ensures Valid() && old(current) <= current
      ensures Lex(Rest()) == Lex(old(Rest())) && (current < |input| ==> !IsSpace(input[current]))
      ensures Blank(input, old(current), current)
    {
      hide LocationOf, Scan;
      while current < |input| && IsSpace(input[current])
        invariant Valid() && old(current) <= current && Lex(Rest()) == Lex(old(Rest()))
        invariant Blank(input, old(current), current)
        decreases |input| - current
      {
        assert Rest()[1..] == input[current + 1..];
        var c := Advance();
      }
    }

    // Runs over characters that satisfy p.
    method SkipWhile(p: Byte -> bool)
      requires Valid()
      modifies this`current, this`line, this`column
      ensures Valid() && current == old(current) + Run(old(Rest()), p)
    {
      while current < |input| && p(input[current])
        invariant Valid() && old(current) <= current
        invariant current + Run(Rest(), p) == old(current) + Run(old(Rest()), p)
        decreases |input| - current
      {
        assert Rest()[1..] == input[current + 1..];
        var c := Advance();
      }
    }

    method MakeToken(kind: TokenType) returns (t: Token)
      requires InToken()
      ensures t.lexeme == Lexeme(kind, input[tokenStart..current]) && InPlace(input, t) && t.location.offset == tokenStart
    {
      return Token(Lexeme(kind, input[tokenStart..current]), tokenLocation);
    }

    method ScanToken() returns (t: Token)
      requires InToken() && tokenStart == current < |input|
      modifies this`current, this`line, this`column
      ensures InToken() && InPlace(input, t) && IsNext(input, tokenStart, t, current)
    {
      hide WordType, Run, StringRest, LocationOf, InPlace, Scan;
      var c := Advance();
      if IdentifierStart(c) {
        ScanOfWord(input, tokenStart);
        SkipWhile(IdentifierPart);
        t := MakeToken(WordType(input[tokenStart..current]));
        return;
      }
      if IsDigit(c) {
        t := ScanNumber();
        return;
      }
      if c == QUOTE {
        t := ScanString();
        return;
      }
      t := ScanOperator(c);
    }

    static lemma ScanOfWord(input: seq<Byte>, start: nat)
      requires start < |input| && IdentifierStart(input[start])
      ensures var n := 1 + Run(input[start + 1..], IdentifierPart); Scan(input[start..]) == (WordType(input[start..start + n]), n)
    {
      hide Run, WordType;
      Suffix(input, start, 1);
      Seqs.CutFront(input, start, start + 1 + Run(input[start + 1..], IdentifierPart));
    }

    static lemma Suffix(input: seq<Byte>, start: nat, n: nat)
      requires start + n <= |input|
      ensures input[start..][n..] == input[start + n..]
    {}

    method ScanNumber() returns (t: Token)
      requires InToken() && current == tokenStart + 1 && IsDigit(input[tokenStart])
      modifies this`current, this`line, this`column
      ensures InToken() && InPlace(input, t) && IsNext(input, tokenStart, t, current)
    {
      hide WordType, LocationOf, StringRest, Run, Scan, InPlace;
      ScanOfNumber(input, tokenStart);
      SkipWhile(IsDigit);
      var fraction := SkipFraction();
      t := MakeToken(if fraction then FloatingPointLiteral else IntegerLiteral);
    }

    // A point with a digit behind it.
    static predicate FractionAt(input: seq<Byte>, at: nat) {
      at + 1 < |input| && input[at] == POINT && IsDigit(input[at + 1])
    }

    method SkipFraction() returns (fraction: bool)
      requires Valid()
      modifies this`current, this`line, this`column
      ensures Valid() && fraction == FractionAt(input, old(current))
      ensures current == if fraction then old(current) + 1 + Run(input[old(current) + 1..], IsDigit) else old(current)
    {
      hide LocationOf, Run;
      if Peek(0) != POINT || current + 1 >= |input| || !IsDigit(input[current + 1]) {
        return false;
      }
      var point := Advance();
      SkipWhile(IsDigit);
      return true;
    }

    static lemma ScanOfNumber(input: seq<Byte>, start: nat)
      requires start < |input| && IsDigit(input[start])
      ensures var n := 1 + Run(input[start + 1..], IsDigit);
        Scan(input[start..]) ==
          if FractionAt(input, start + n) then (FloatingPointLiteral, n + 1 + Run(input[start + n + 1..], IsDigit)) else (IntegerLiteral, n)
    {
      hide Run, WordType, StringRest;
      var s := input[start..];
      Suffix(input, start, 1);
      OneDigit(s);
      if HasFraction(s) {
        Suffix(input, start, NumberLength(s) + 1);
      }
    }

    static lemma OneDigit(s: seq<Byte>)
      requires s != [] && IsDigit(s[0])
      ensures NumberLength(s) == 1 + Run(s[1..], IsDigit)
    {}

    method ScanString() returns (t: Token)
      requires InToken() && current == tokenStart + 1 && input[tokenStart] == QUOTE
      modifies this`current, this`line, this`column
      ensures InToken() && InPlace(input, t) && IsNext(input, tokenStart, t, current)
    {
      hide WordType, LocationOf, Run, Scan, StringRest, InPlace;
      ScanOfString(input, tokenStart);
      while current < |input|
        invariant InToken() && current > tokenStart
        invariant StringRest(input[tokenStart + 1..]) == Further(StringRest(Rest()), current - tokenStart - 1)
        decreases |input| - current
      {
        StringStep(input, current);
        var c := Advance();
        if c == QUOTE {
          var doubled := Match(QUOTE);
          if !doubled {
            t := MakeToken(StringLiteral);
            return;
          }
        }
      }
      NeverClosed(Rest());
      t := MakeToken(Invalid);
    }

    static ghost function Further(n: Option<nat>, more: nat): Option<nat> {
      match n
      case None => None
      case Some(m) => Some(m + more)
    }

    static lemma ScanOfString(input: seq<Byte>, start: nat)
      requires start < |input| && input[start] == QUOTE
      ensures Scan(input[start..]) ==
        match StringRest(input[start + 1..]) case None => (Invalid, |input| - start) case Some(n) => (StringLiteral, n + 1)
    {
      hide StringRest;
      Suffix(input, start, 1);
    }

    static lemma NeverClosed(s: seq<Byte>)
      requires s == []
      ensures StringRest(s) == None
    {}

    static lemma StringStep(input: seq<Byte>, at: nat)
      requires at < |input|
      ensures input[at] != QUOTE ==> StringRest(input[at..]) == Further(StringRest(input[at + 1..]), 1)
      ensures input[at] == QUOTE && at + 1 < |input| && input[at + 1] == QUOTE ==>
        StringRest(input[at..]) == Further(StringRest(input[at + 2..]), 2)
      ensures input[at] == QUOTE && !(at + 1 < |input| && input[at + 1] == QUOTE) ==> StringRest(input[at..]) == Some(1)
    {
      var s := input[at..];
      assert s[1..] == input[at + 1..];
      assert |s| > 1 ==> s[2..] == input[at + 2..];
    }

    method ScanOperator(c: Byte) returns (t: Token)
      requires InToken() && current == tokenStart + 1 && c == input[tokenStart]
      requires !IdentifierStart(c) && !IsDigit(c) && c != QUOTE
      modifies this`current, this`line, this`column
      ensures InToken() && InPlace(input, t) && IsNext(input, tokenStart, t, current)
    {
      hide WordType, LocationOf, Run, StringRest, InPlace;
      var kind := Invalid;
      match c as int {
        case 40 => kind := LeftParen;
        case 41 => kind := RightParen;
        case 44 => kind := Comma;
        case 59 => kind := Semicolon;
        case 46 => kind := Dot;
        case 61 => kind := Equal;
        case 33 =>
          var equal := Match(61);
          kind := if equal then NotEqual else Invalid;
        case 60 =>
          var equal := Match(61);
          if equal {
            kind := LessThanOrEqual;
          } else {
            var greater := Match(62);
            kind := if greater then NotEqual else LessThan;
          }
        case 62 =>
          var equal := Match(61);
          kind := if equal then GreaterThanOrEqual else GreaterThan;
        case 43 => kind := Plus;
        case 45 => kind := Minus;
        case 42 => kind := Star;
        case 47 => kind := Slash;
        case _ => kind := Invalid;
      }
      t := MakeToken(kind);
    }

    // Every token of the text in order, each carrying the line and column its first character is on.
    method Tokenize() returns (tokens: seq<Token>)
      requires Valid() && current == 0
      modifies this
      ensures Lexemes(tokens) == Lex(input)
      ensures AllInPlace(input, tokens) && Tiled(input, tokens) && EndOf(tokens) == |input|
    {
      hide Scan, IsNext, LocationOf, InPlace, Lex, LexedTo, Blank;
      tokens := [];
      NothingLexed(input);
      while true
        invariant Valid() && LexedTo(input, tokens, current)
        decreases |input| - current
      {
        ghost var from := current;
        SkipWhitespace();
        tokenStart := current;
        tokenLocation := Location(current, line, column);
        if current == |input| {
          var end := MakeToken(EndOfInput);
          LastLexed(tokens, end, input, from);
          return tokens + [end];
        }
        var t := ScanToken();
        OneLexed(tokens, t, input, from, tokenStart, current);
        tokens := tokens + [t];
      }
    }
  }

  // The tokens of the text up to here.
  ghost predicate LexedTo(input: seq<Byte>, tokens: seq<Token>, at: nat) {
    && at <= |input| && Lexemes(tokens) + Lex(input[at..]) == Lex(input)
    && AllInPlace(input, tokens) && Tiled(input, tokens) && EndOf(tokens) == at
  }

  lemma NothingLexed(input: seq<Byte>)
    ensures LexedTo(input, [], 0)
  {
    assert input[0..] == input;
  }

  lemma LastLexed(tokens: seq<Token>, end: Token, input: seq<Byte>, from: nat)
    requires LexedTo(input, tokens, from) && Blank(input, from, |input|) && Lex(input[from..]) == Lex(input[|input|..])
    requires end.lexeme == Lexeme(EndOfInput, []) && end.location.offset == |input| && InPlace(input, end)
    ensures Lexemes(tokens + [end]) == Lex(input)
    ensures AllInPlace(input, tokens + [end]) && Tiled(input, tokens + [end]) && EndOf(tokens + [end]) == |input|
  {
    hide AllInPlace, Tiled, LocationOf, InPlace, Blank, Lex, IsNext;
    OneMoreInPlace(input, tokens, end);
    OneMoreTile(input, tokens, end);
    EndLexed(input);
    assert Lexemes(tokens + [end]) == Lexemes(tokens) + [end.lexeme];
  }

  lemma EndLexed(input: seq<Byte>)
    ensures Lex(input[|input|..]) == [Lexeme(EndOfInput, [])]
  {}

  lemma OneMoreInPlace(input: seq<Byte>, tokens: seq<Token>, t: Token)
    requires AllInPlace(input, tokens) && InPlace(input, t)
    ensures AllInPlace(input, tokens + [t])
  {
    hide InPlace;
  }

  lemma OneMoreTile(input: seq<Byte>, tokens: seq<Token>, t: Token)
    requires Tiled(input, tokens) && Follows(input, tokens, t)
    ensures Tiled(input, tokens + [t])
  {
    hide Follows;
    forall k | 0 <= k < |tokens + [t]|
      ensures Follows(input, (tokens + [t])[..k], (tokens + [t])[k])
    {
      if k < |tokens| {
        assert (tokens + [t])[..k] == tokens[..k];
      } else {
        assert (tokens + [t])[..k] == tokens;
      }
    }
  }

  lemma OneLexed(tokens: seq<Token>, t: Token, input: seq<Byte>, from: nat, start: nat, end: nat)
    requires LexedTo(input, tokens, from) && Blank(input, from, start)
    requires start < |input| && !IsSpace(input[start]) && Lex(input[from..]) == Lex(input[start..])
    requires InPlace(input, t) && IsNext(input, start, t, end)
    ensures LexedTo(input, tokens + [t], end) && start < end
  {
    hide Scan, AllInPlace, Tiled, LocationOf, InPlace, Blank;
    OneMoreInPlace(input, tokens, t);
    OneMoreTile(input, tokens, t);
    LexOnce(t, input, start, end);
    assert Lexemes(tokens + [t]) == Lexemes(tokens) + [t.lexeme];
    Seqs.Assoc(Lexemes(tokens), [t.lexeme], Lex(input[end..]));
  }

  lemma LexOnce(t: Token, input: seq<Byte>, start: nat, end: nat)
    requires start < |input| && !IsSpace(input[start]) && IsNext(input, start, t, end)
    ensures Lex(input[start..]) == [t.lexeme] + Lex(input[end..])
  {
    hide Scan;
    Seqs.CutFront(input, start, end);
    Seqs.CutBack(input, start, end);
  }
}
