// What the lexer takes for a token, letter by letter.
module LexerLaws {
  import opened Bytes
  import opened Results
  import opened Lexer
  import Printer

  // ---------- Words ----------

  // The keywords as they are written in capitals.
  ghost function Spelling(kind: TokenType): string {
    match kind
    case And => "AND"
    case Or => "OR"
    case Is => "IS"
    case Not => "NOT"
    case Null => "NULL"
    case Create => "CREATE"
    case Index => "INDEX"
    case On => "ON"
    case Database => "DATABASE"
    case Use => "USE"
    case Table => "TABLE"
    case IntWord => "INT"
    case DoubleWord => "DOUBLE"
    case VarcharWord => "VARCHAR"
    case Primary => "PRIMARY"
    case Key => "KEY"
    case Unique => "UNIQUE"
    case Insert => "INSERT"
    case Into => "INTO"
    case ValuesWord => "VALUES"
    case Select => "SELECT"
    case Explain => "EXPLAIN"
    case Delete => "DELETE"
    case Update => "UPDATE"
    case Set => "SET"
    case From => "FROM"
    case Where => "WHERE"
    case _ => ""
  }

  // Letter by letter the word, capital or small.
  ghost predicate Reads(text: seq<Byte>, word: string) {
    && |text| == |word|
    && forall i :: 0 <= i < |word| ==> text[i] as int == word[i] as int || text[i] as int == word[i] as int + 32
  }

  // The table of the lexer is this one.
  ghost predicate SameWord(kind: TokenType) {
    |Spelling(kind)| == |Word(kind)| && forall i :: 0 <= i < |Word(kind)| ==> Spelling(kind)[i] as int == Word(kind)[i] as int
  }

  lemma FirstWords(kind: TokenType)
    requires Printer.CodeOf(kind) < 3500
    ensures SameWord(kind)
  {}

  lemma SecondWords(kind: TokenType)
    requires 3500 <= Printer.CodeOf(kind) < 5000
    ensures SameWord(kind)
  {}

  lemma ThirdWords(kind: TokenType)
    requires 5000 <= Printer.CodeOf(kind) < 6300
    ensures SameWord(kind)
  {}

  lemma FourthWords(kind: TokenType)
    requires 6300 <= Printer.CodeOf(kind) < 7000
    ensures SameWord(kind)
  {}

  lemma LastWords(kind: TokenType)
    requires 7000 <= Printer.CodeOf(kind)
    ensures SameWord(kind)
  {}

  lemma SameWords(kind: TokenType)
    ensures SameWord(kind)
  {
    hide SameWord, Printer.CodeOf;
    var code := Printer.CodeOf(kind);
    if code < 3500 {
      FirstWords(kind);
    } else if code < 5000 {
      SecondWords(kind);
    } else if code < 6300 {
      ThirdWords(kind);
    } else if code < 7000 {
      FourthWords(kind);
    } else {
      LastWords(kind);
    }
  }

  lemma ReadsInCapitals(text: seq<Byte>, kind: TokenType)
    ensures Reads(text, Spelling(kind)) <==> Uppercase(text) == Word(kind)
  {
    hide Spelling, Word;
    SameWords(kind);
    Printer.KeywordLetters(kind);
    if Reads(text, Spelling(kind)) {
      assert forall i :: 0 <= i < |text| ==> Uppercase(text)[i] == Word(kind)[i];
    }
  }

  lemma {:induction false} SpelledIs(word: seq<Byte>, kinds: seq<TokenType>)
    ensures Spelled(word, kinds) != Identifier ==> word == Word(Spelled(word, kinds))
  {
    hide Word;
    if kinds != [] {
      SpelledIs(word, kinds[1..]);
    }
  }

  lemma SpellingExists(kind: TokenType)
    ensures Spelling(kind) != "" <==> Printer.CodeOf(kind) > 0
  {}

  lemma KeywordsHaveCodes(i: nat)
    requires i < |KEYWORDS|
    ensures Printer.CodeOf(KEYWORDS[i]) > 0
  {}

  lemma WordsRead(text: seq<Byte>, kind: TokenType)
    requires kind != Identifier
    ensures WordType(text) == kind <==> Spelling(kind) != "" && Reads(text, Spelling(kind))
  {
    hide Spelling, Word, Reads, Uppercase, Printer.CodeOf, Spelled;
    ReadsInCapitals(text, kind);
    SpellingExists(kind);
    if Spelling(kind) != "" && Uppercase(text) == Word(kind) {
      Printer.KeywordBack(kind);
      Printer.InCapitals(kind);
    }
    if WordType(text) == kind {
      SpelledIs(Uppercase(text), KEYWORDS);
      var i :| 0 <= i < |KEYWORDS| && KEYWORDS[i] == kind;
      KeywordsHaveCodes(i);
    }
  }

  // A word is a keyword when it reads like one, in capitals or not or mixed, and else a name.
  lemma WordIs(text: seq<Byte>, kind: TokenType)
    requires kind != Identifier
    ensures WordType(text) == kind <==> Spelling(kind) != "" && Reads(text, Spelling(kind))
    ensures WordType(text) == Identifier <==> forall k :: Spelling(k) != "" ==> !Reads(text, Spelling(k))
  {
    hide Spelling, Reads, WordType;
    WordsRead(text, kind);
    NameIsNoKeyword();
    if WordType(text) != Identifier {
      WordsRead(text, WordType(text));
    }
    forall k | WordType(text) == Identifier && Spelling(k) != ""
      ensures !Reads(text, Spelling(k))
    {
      WordsRead(text, k);
    }
  }

  lemma NameIsNoKeyword()
    ensures Spelling(Identifier) == ""
  {}

  // ---------- One token ----------

  ghost predicate Letter(c: Byte) {
    'A' <= c as char <= 'Z' || 'a' <= c as char <= 'z' || c as char == '_'
  }

  ghost predicate Digit(c: Byte) {
    '0' <= c as char <= '9'
  }

  // A token that starts with a letter goes on while letters and digits do.
  lemma WordTokenIs(s: seq<Byte>)
    requires s != [] && Letter(s[0])
    ensures var (kind, n) := Scan(s);
      && kind == WordType(s[..n]) && 0 < n <= |s|
      && (forall i :: 0 <= i < n ==> Letter(s[i]) || Digit(s[i]))
      && (n < |s| ==> !Letter(s[n]) && !Digit(s[n]))
  {
    hide WordType, StringRest;
    var n := Scan(s).1;
    assert forall i :: 0 < i < n ==> IdentifierPart(s[1..][i - 1]) && s[i] == s[1..][i - 1];
    assert n < |s| ==> s[1..][n - 1] == s[n];
  }

  ghost predicate AllDigits(s: seq<Byte>) {
    forall i :: 0 <= i < |s| ==> Digit(s[i])
  }

  // One that starts with a digit goes on while digits do, and over a point that a digit follows.
  lemma NumberTokenIs(s: seq<Byte>)
    requires s != [] && Digit(s[0])
    ensures var (kind, n) := Scan(s);
      && 0 < n <= |s| && (n < |s| ==> !Digit(s[n]))
      && if kind == FloatingPointLiteral then
           exists m :: 0 < m < n - 1 && s[m] as char == '.' && AllDigits(s[..m]) && AllDigits(s[m + 1..n])
         else
           kind == IntegerLiteral && AllDigits(s[..n]) && (n + 1 < |s| && s[n] as char == '.' ==> !Digit(s[n + 1]))
  {
    hide WordType, StringRest;
    var m := NumberLength(s);
    assert AllDigits(s[..m]);
    if HasFraction(s) {
      var after := s[m + 1..];
      var more := Run(after, IsDigit);
      assert forall i :: 0 <= i < more ==> s[m + 1..m + 1 + more][i] == after[i];
      assert AllDigits(s[m + 1..m + 1 + more]);
      assert more < |after| ==> after[more] == s[m + 1 + more];
      assert after[0] == s[m + 1];
    }
  }

  // A string ends at the first quote that is not doubled.
  lemma {:induction false} ClosesAt(s: seq<Byte>, t: seq<Byte>, n: nat)
    requires n < |s| && s[..n] == Printer.Doubled(t) && s[n] == QUOTE && (n + 1 < |s| ==> s[n + 1] != QUOTE)
    ensures StringRest(s) == Some(n + 1)
  {
    if t != [] {
      var skip := if t[0] == QUOTE then 2 else 1;
      var more := Printer.Doubled(t[1..]);
      assert s[..n] == Printer.Doubled(t) && s[..n][..skip] == Printer.Doubled(t)[..skip];
      assert s[..n][0] == s[0] && (skip == 2 ==> s[..n][1] == s[1]);
      assert s[skip..][..n - skip] == s[..n][skip..] == more;
      ClosesAt(s[skip..], t[1..], n - skip);
    }
  }

  lemma {:induction false} ClosedInside(s: seq<Byte>) returns (t: seq<Byte>)
    requires StringRest(s).Some?
    ensures var n := StringRest(s).value - 1;
      s[..n] == Printer.Doubled(t) && s[n] == QUOTE && (n + 1 < |s| ==> s[n + 1] != QUOTE)
  {
    if s[0] == QUOTE && (|s| == 1 || s[1] != QUOTE) {
      t := [];
    } else {
      var skip := if s[0] == QUOTE then 2 else 1;
      var more := ClosedInside(s[skip..]);
      t := [s[0]] + more;
      var n := StringRest(s).value - 1;
      assert t[1..] == more && s[..n] == s[..skip] + s[skip..][..n - skip];
    }
  }

  lemma QuotedParts(s: seq<Byte>, d: seq<Byte>, m: nat)
    requires m <= |s| && s[..m] == [QUOTE] + (d + [QUOTE])
    ensures m == |d| + 2 && s[1..][..m - 2] == d && s[1..][m - 2] == QUOTE
  {
    assert |s[..m]| == |d| + 2;
    assert s[..m][1..m - 1] == d && s[1..][..m - 2] == s[..m][1..m - 1];
    assert s[..m][m - 1] == QUOTE;
  }

  // One that starts with a quote goes on to the first quote that stands alone, the ones before it doubled; a text that
  // has none is not a token but for its whole rest.
  lemma StringTokenIs(s: seq<Byte>)
    requires s != [] && s[0] as char == '\''
    ensures var (kind, n) := Scan(s);
      if kind == StringLiteral then
        && 2 <= n <= |s| && (n < |s| ==> s[n] as char != '\'')
        && exists t :: s[..n] == [QUOTE] + (Printer.Doubled(t) + [QUOTE])
      else
        && kind == Invalid && n == |s|
        && forall t, m :: 2 <= m <= |s| && (m < |s| ==> s[m] as char != '\'') ==> s[..m] != [QUOTE] + (Printer.Doubled(t) + [QUOTE])
  {
    hide WordType, StringRest, Run;
    var n := Scan(s).1;
    if StringRest(s[1..]).Some? {
      var t := ClosedInside(s[1..]);
      assert s[..n] == [QUOTE] + (s[1..][..n - 2] + [s[1..][n - 2]]);
      assert n < |s| ==> s[1..][n - 1] == s[n];
    } else {
      forall t, m | 2 <= m <= |s| && (m < |s| ==> s[m] as char != '\'')
        ensures s[..m] != [QUOTE] + (Printer.Doubled(t) + [QUOTE])
      {
        if s[..m] == [QUOTE] + (Printer.Doubled(t) + [QUOTE]) {
          var d := Printer.Doubled(t);
          QuotedParts(s, d, m);
          ClosesAt(s[1..], t, m - 2);
        }
      }
    }
  }

  // ---------- Marks ----------

  ghost predicate IsMark(kind: TokenType, mark: string) {
    match kind
    case LeftParen => mark == "("
    case RightParen => mark == ")"
    case Comma => mark == ","
    case Semicolon => mark == ";"
    case Dot => mark == "."
    case Equal => mark == "="
    case NotEqual => mark == "!=" || mark == "<>"
    case LessThan => mark == "<"
    case LessThanOrEqual => mark == "<="
    case GreaterThan => mark == ">"
    case GreaterThanOrEqual => mark == ">="
    case Plus => mark == "+"
    case Minus => mark == "-"
    case Star => mark == "*"
    case Slash => mark == "/"
    case _ => false
  }

  ghost predicate StartsWith(s: seq<Byte>, mark: string) {
    |mark| <= |s| && forall i :: 0 <= i < |mark| ==> s[i] as char == mark[i]
  }

  // The mark found, when there is one.
  ghost function MarkOf(s: seq<Byte>): string
    requires s != []
  {
    var n := ScanSymbol(s).1;
    if n == 1 then [s[0] as char] else [s[0] as char, s[1] as char]
  }

  lemma MarkFound(s: seq<Byte>)
    requires s != []
    ensures var (kind, n) := ScanSymbol(s);
      if kind == Invalid then n == 1 else IsMark(kind, MarkOf(s)) && StartsWith(s, MarkOf(s)) && |MarkOf(s)| == n
  {}

  lemma LongMark(s: seq<Byte>, kind: TokenType, mark: string)
    requires s != [] && IsMark(kind, mark) && StartsWith(s, mark) && |mark| != 1
    ensures ScanSymbol(s) == (kind, |mark|) && |mark| == 2
  {}

  lemma ShortMark(s: seq<Byte>, kind: TokenType, mark: string)
    requires s != [] && IsMark(kind, mark) && StartsWith(s, mark) && |mark| == 1
    ensures ScanSymbol(s).0 != Invalid && (ScanSymbol(s).1 == 1 ==> kind == ScanSymbol(s).0)
  {}

  // Anything else is the longest mark that the text starts with, or one character that starts no mark.
  lemma MarkTokenIs(s: seq<Byte>, kind: TokenType, mark: string)
    requires s != [] && !Letter(s[0]) && !Digit(s[0]) && s[0] as char != '\''
    ensures Scan(s).0 == Invalid ==> Scan(s).1 == 1
    ensures Scan(s).0 != Invalid ==> exists m :: IsMark(Scan(s).0, m) && StartsWith(s, m) && |m| == Scan(s).1
    ensures IsMark(kind, mark) && StartsWith(s, mark) ==>
      Scan(s).0 != Invalid && |mark| <= Scan(s).1 && (|mark| == Scan(s).1 ==> kind == Scan(s).0)
  {
    hide WordType, StringRest, Run, IsMark, StartsWith, MarkOf, ScanSymbol;
    assert Scan(s) == ScanSymbol(s);
    MarkFound(s);
    if IsMark(kind, mark) && StartsWith(s, mark) {
      if |mark| == 1 {
        ShortMark(s, kind, mark);
      } else {
        LongMark(s, kind, mark);
      }
    }
  }

  // ---------- Places ----------

  ghost function LineEnds(input: seq<Byte>, offset: nat): set<nat>
    requires offset <= |input|
  {
    set i: nat | i < offset && input[i] as char == '\n'
  }

  lemma {:induction false} NewlinesCount(input: seq<Byte>, offset: nat)
    requires offset <= |input|
    ensures Newlines(input[..offset]) == |LineEnds(input, offset)|
  {
    if offset > 0 {
      NewlinesCount(input, offset - 1);
      assert input[..offset][..offset - 1] == input[..offset - 1];
      var before := LineEnds(input, offset - 1);
      assert LineEnds(input, offset) == if input[offset - 1] == NEWLINE then before + {offset - 1} else before;
    } else {
      assert LineEnds(input, 0) == {};
    }
  }

  lemma {:induction false} LineStartIs(input: seq<Byte>, offset: nat)
    requires offset <= |input|
    ensures var start := LineStart(input[..offset]);
      start <= offset && (start > 0 ==> input[start - 1] == NEWLINE) && forall i :: start <= i < offset ==> input[i] != NEWLINE
  {
    if offset > 0 && input[offset - 1] != NEWLINE {
      LineStartIs(input, offset - 1);
      assert input[..offset][..offset - 1] == input[..offset - 1];
    }
  }

  // The line is one more than the line ends before the place, the column one more than the characters between the last
  // of them and the place.
  lemma LocationIs(input: seq<Byte>, offset: nat)
    requires offset <= |input|
    ensures var place := LocationOf(input, offset);
      && place.offset == offset && place.line == 1 + |LineEnds(input, offset)| && 1 <= place.column <= offset + 1
      && (forall i :: offset + 1 - place.column <= i < offset ==> input[i] as char != '\n')
      && (place.column <= offset ==> input[offset - place.column] as char == '\n')
  {
    NewlinesCount(input, offset);
    LineStartIs(input, offset);
  }
}
