/**
 How the language is cut into tokens, with characters and pairs of characters
 written out.
 */
module TokenRules {
  import opened Tokenizer
  import opened LanguageTables

  predicate Letter(c: char) {
    'a' <= c <= 'z' || 'A' <= c <= 'Z' || c == '_'
  }

  predicate Digit(c: char) {
    '0' <= c <= '9'
  }

  /** ASCII characters, the blank among them, that are no letters or digits; but not the point, the backquote and the tilde. */
  predicate Symbol(c: char) {
    ' ' <= c <= '}' && !Letter(c) && !Digit(c) && c != '.' && c != '`'
  }

  predicate Break(c: char) {
    c == '\n' || c == '\t' || c == '\r'
  }

  /** Two characters that stay in one token although the second would end it. */
  predicate Pair(a: char, b: char) {
    (a, b) in {
      ('+', '='), ('-', '='), ('*', '='), (':', '='), ('^', '='), ('|', '='), ('!', '='), ('&', '='), ('~', '='),
      ('<', '='), ('>', '='), ('=', '='),
      ('+', '+'), ('+', '-'), ('-', '+'), ('-', '-'), ('-', '>'),
      ('/', '/'), ('/', '*'), ('*', '*'), ('*', '/'),
      (':', ':'), ('.', '.'), ('|', '|'), ('&', '&'), ('~', '~'), ('^', '^'), ('%', '%'), ('@', '@'), ('!', '!'), ('[', ']') }
  }

  // ------------------------------------------------------ the tables, spelt out

  lemma SymbolsAre(c: char)
    ensures c in Symbols <==> Symbol(c)
  {
    if c in Symbols {
      var i :| 0 <= i < |Symbols| && Symbols[i] == c;
    }
    if Symbol(c) {
      SymbolsIn(c);
    }
  }

  lemma SymbolsIn(c: char)
    requires Symbol(c)
    ensures c in Symbols
  {
    assert Symbols[0] == ' ' && Symbols[1] == ',' && Symbols[2] == '/' && Symbols[3] == ';' && Symbols[4] == '(' && Symbols[5] == ')';
    assert Symbols[6] == '+' && Symbols[7] == '=' && Symbols[8] == '-' && Symbols[9] == '\\' && Symbols[10] == '|' && Symbols[11] == '<';
    assert Symbols[12] == '>' && Symbols[13] == '?' && Symbols[14] == ':' && Symbols[15] == '!' && Symbols[16] == '@' && Symbols[17] == '#';
    assert Symbols[18] == '$' && Symbols[19] == '%' && Symbols[20] == '^' && Symbols[21] == '&' && Symbols[22] == '*' && Symbols[23] == '{';
    assert Symbols[24] == '}' && Symbols[25] == '[' && Symbols[26] == ']' && Symbols[27] == '\"' && Symbols[28] == '\'';
  }

  lemma LettersAre(c: char)
    ensures c in Letters <==> Letter(c)
  {
    assert c in Letters <==> c in Small || c in Capital || c in "_";
    assert c in "_" <==> c == '_' by {
      assert "_"[0] == '_';
    }
    SmallAre(c);
    CapitalAre(c);
  }

  lemma SmallAre(c: char)
    ensures c in Small <==> 'a' <= c <= 'z'
  {
    assert Small[0] == 'a' && Small[1] == 'b' && Small[2] == 'c' && Small[3] == 'd' && Small[4] == 'e' && Small[5] == 'f';
    assert Small[6] == 'g' && Small[7] == 'h' && Small[8] == 'i' && Small[9] == 'j' && Small[10] == 'k' && Small[11] == 'l';
    assert Small[12] == 'm' && Small[13] == 'n' && Small[14] == 'o' && Small[15] == 'p' && Small[16] == 'q' && Small[17] == 'r';
    assert Small[18] == 's' && Small[19] == 't' && Small[20] == 'u' && Small[21] == 'v' && Small[22] == 'w' && Small[23] == 'x';
    assert Small[24] == 'y' && Small[25] == 'z';
  }

  lemma CapitalAre(c: char)
    ensures c in Capital <==> 'A' <= c <= 'Z'
  {
    assert Capital[0] == 'A' && Capital[1] == 'B' && Capital[2] == 'C' && Capital[3] == 'D' && Capital[4] == 'E' && Capital[5] == 'F';
    assert Capital[6] == 'G' && Capital[7] == 'H' && Capital[8] == 'I' && Capital[9] == 'J' && Capital[10] == 'K' && Capital[11] == 'L';
    assert Capital[12] == 'M' && Capital[13] == 'N' && Capital[14] == 'O' && Capital[15] == 'P' && Capital[16] == 'Q' && Capital[17] == 'R';
    assert Capital[18] == 'S' && Capital[19] == 'T' && Capital[20] == 'U' && Capital[21] == 'V' && Capital[22] == 'W' && Capital[23] == 'X';
    assert Capital[24] == 'Y' && Capital[25] == 'Z';
  }

  lemma DigitsAre(c: char)
    ensures c in Digits <==> Digit(c)
  {
    assert Digits[0] == '0' && Digits[1] == '1' && Digits[2] == '2' && Digits[3] == '3' && Digits[4] == '4';
    assert Digits[5] == '5' && Digits[6] == '6' && Digits[7] == '7' && Digits[8] == '8' && Digits[9] == '9';
  }

  lemma BlanksAre(c: char)
    ensures c in Blanks <==> Break(c)
  {
    assert Blanks[0] == '\n' && Blanks[1] == '\t' && Blanks[2] == '\r';
  }

  /** Characters that begin punctuation: every symbol but the blank and the quotes, the point, the backquote and the tilde. */
  predicate Punct(c: char) {
    (Symbol(c) && c != ' ' && c != '\"' && c != '\'') || c == '.' || c == '`' || c == '~'
  }

  lemma PunctAre(c: char)
    ensures c in Standard.starts[6].1 <==> Punct(c)
  {
    var s := Standard.starts[6].1;
    if c in s {
      var i :| 0 <= i < |s| && s[i] == c;
    }
    if Punct(c) {
      if c < ':' {
        LowPunct(s, c);
      } else {
        HighPunct(s, c);
      }
    }
  }

  lemma LowPunct(s: string, c: char)
    requires s == ".,/;()+=-\\|<>?:!@#$%^&*{}[]`~" && Punct(c) && c < ':'
    ensures c in s
  {
    assert s[0] == '.' && s[1] == ',' && s[2] == '/' && s[4] == '(' && s[5] == ')' && s[6] == '+';
    assert s[8] == '-' && s[15] == '!' && s[17] == '#' && s[18] == '$' && s[19] == '%' && s[21] == '&';
    assert s[22] == '*';
  }

  lemma HighPunct(s: string, c: char)
    requires s == ".,/;()+=-\\|<>?:!@#$%^&*{}[]`~" && Punct(c) && c >= ':'
    ensures c in s
  {
    assert s[3] == ';' && s[7] == '=' && s[9] == '\\' && s[10] == '|' && s[11] == '<' && s[12] == '>';
    assert s[13] == '?' && s[14] == ':' && s[16] == '@' && s[20] == '^' && s[23] == '{' && s[24] == '}';
    assert s[25] == '[' && s[26] == ']' && s[27] == '`' && s[28] == '~';
  }

  /** Which kind of token a character begins. */
  function Begins(c: char): Kind {
    if c == '\n' then EndOfLine
    else if Letter(c) then Identifier
    else if Digit(c) then Integer
    else if c == '\"' then String
    else if c == '\'' then Character
    else if Punct(c) then Punctuation
    else Nothing
  }

  lemma StartIs(c: char)
    ensures Standard.Start(c) == Begins(c)
  {
    LettersAre(c);
    DigitsAre(c);
    PunctAre(c);
    var s := Standard.starts;
    assert c in s[0].1 <==> c == ' ' || c == '\t' by {
      assert s[0].1[0] == ' ' && s[0].1[1] == '\t';
    }
    assert c in s[1].1 <==> c == '\n' by {
      assert s[1].1[0] == '\n';
    }
    assert c in s[4].1 <==> c == '\"' by {
      assert s[4].1[0] == '\"';
    }
    assert c in s[5].1 <==> c == '\'' by {
      assert s[5].1[0] == '\'';
    }
    StartUnrolled(c);
  }

  /** The kinds are tried in order. */
  lemma StartUnrolled(c: char)
    ensures Standard.Start(c)
         == if c in Standard.starts[0].1 then Nothing
            else if c in Standard.starts[1].1 then EndOfLine
            else if c in Standard.starts[2].1 then Identifier
            else if c in Standard.starts[3].1 then Integer
            else if c in Standard.starts[4].1 then String
            else if c in Standard.starts[5].1 then Character
            else if c in Standard.starts[6].1 then Punctuation else Nothing
  {
    var s := Standard.starts;
    assert Standard.StartFrom(c, 7) == Nothing;
    assert Standard.StartFrom(c, 6) == if c in s[6].1 then Punctuation else Nothing;
    assert Standard.StartFrom(c, 5) == if c in s[5].1 then Character else Standard.StartFrom(c, 6);
    assert Standard.StartFrom(c, 4) == if c in s[4].1 then String else Standard.StartFrom(c, 5);
    assert Standard.StartFrom(c, 3) == if c in s[3].1 then Integer else Standard.StartFrom(c, 4);
    assert Standard.StartFrom(c, 2) == if c in s[2].1 then Identifier else Standard.StartFrom(c, 3);
    assert Standard.StartFrom(c, 1) == if c in s[1].1 then EndOfLine else Standard.StartFrom(c, 2);
    assert Standard.StartFrom(c, 0) == if c in s[0].1 then Nothing else Standard.StartFrom(c, 1);
  }

  /** The pairs are those of the table. */
  lemma PairsAre(a: char, b: char)
    ensures Standard.Cancelled(a, b) <==> Pair(a, b)
  {
    PairCancels(a, b);
    if Standard.Cancelled(a, b) {
      var n :| 0 <= n < 15 && a in Standard.cancels[n].0 && b in Standard.cancels[n].1;
      CancelPairs(n, a, b);
    }
  }

  lemma CancelPairs(n: nat, a: char, b: char)
    requires n < 15 && a in Standard.cancels[n].0 && b in Standard.cancels[n].1
    ensures Pair(a, b)
  {
    var (first, second) := Standard.cancels[n];
    var i :| 0 <= i < |first| && first[i] == a;
    var j :| 0 <= j < |second| && second[j] == b;
    if n == 0 {
      assert b == '=';
    }
  }

  lemma PairCancels(a: char, b: char)
    ensures Pair(a, b) ==> Standard.Cancelled(a, b)
  {
    if b == '=' {
      EqualsCancels(a);
    }
    var t := Standard.cancels;
    assert t[1].0[0] == '+' && t[1].0[1] == '-' && t[1].1[0] == '+' && t[1].1[1] == '-';
    assert t[2].0[0] == '-' && t[2].1[0] == '>';
    assert t[3].0[0] == '/' && t[3].1[0] == '/' && t[3].1[1] == '*';
    assert t[4].0[0] == '*' && t[4].1[0] == '*' && t[4].1[1] == '/';
    assert t[5].0[0] == ':' && t[5].1[0] == ':';
    assert t[6].0[0] == '.' && t[6].1[0] == '.';
    assert t[7].0[0] == '|' && t[7].1[0] == '|';
    assert t[8].0[0] == '&' && t[8].1[0] == '&';
    assert t[9].0[0] == '~' && t[9].1[0] == '~';
    assert t[10].0[0] == '^' && t[10].1[0] == '^';
    assert t[11].0[0] == '%' && t[11].1[0] == '%';
    assert t[12].0[0] == '@' && t[12].1[0] == '@';
    assert t[13].0[0] == '!' && t[13].1[0] == '!';
    assert t[14].0[0] == '[' && t[14].1[0] == ']';
  }

  lemma EqualsCancels(a: char)
    ensures Pair(a, '=') ==> Standard.Cancelled(a, '=')
  {
    var first := Standard.cancels[0].0;
    assert first[0] == '+' && first[1] == '-' && first[2] == '*' && first[3] == ':' && first[4] == '^' && first[5] == '|';
    assert first[6] == '!' && first[7] == '&' && first[8] == '~' && first[9] == '<' && first[10] == '>' && first[11] == '=';
    assert Standard.cancels[0].1[0] == '=';
  }

  // ---------------------------------------------------- which characters end what

  /** Characters that end a token of kind `k`, unless they are the second of a pair. */
  predicate Ends(k: Kind, c: char) {
    match k
    case EndOfLine => Symbol(c) || Letter(c) || Digit(c) || c == '.' || Break(c)
    case Punctuation => Symbol(c) || Letter(c) || Digit(c) || c == '.' || Break(c)
    case Identifier => Symbol(c) || c == '.' || Break(c)
    case Integer => Symbol(c) || Break(c)
    case String => c == '\"'
    case Character => c == '\''
    case _ => false
  }

  lemma PointIs(c: char)
    ensures c in "." <==> c == '.'
  {
    assert "."[0] == '.';
  }

  lemma QuotesAre(c: char)
    ensures (c in "\"" <==> c == '\"') && (c in "'" <==> c == '\'')
  {
    assert "\""[0] == '\"' && "'"[0] == '\'';
  }

  lemma EndsAre(k: Kind, c: char)
    ensures k in Standard.escapes && c in Standard.escapes[k] <==> Ends(k, c)
  {
    SymbolsAre(c);
    LettersAre(c);
    DigitsAre(c);
    BlanksAre(c);
    PointIs(c);
    QuotesAre(c);
    var all, name, number := Symbols + Letters + Digits + "." + Blanks, Symbols + "." + Blanks, Symbols + Blanks;
    assert c in all <==> c in Symbols || c in Letters || c in Digits || c in "." || c in Blanks;
    assert c in name <==> c in Symbols || c in "." || c in Blanks;
    assert c in number <==> c in Symbols || c in Blanks;
    EscapeTable(k, all, name, number);
  }

  lemma EscapeTable(k: Kind, all: string, name: string, number: string)
    requires all == Symbols + Letters + Digits + "." + Blanks && name == Symbols + "." + Blanks && number == Symbols + Blanks
    ensures k in Standard.escapes <==> k in {EndOfLine, Identifier, Integer, String, Character, Punctuation}
    ensures k in {EndOfLine, Punctuation} ==> Standard.escapes[k] == all
    ensures k == Identifier ==> Standard.escapes[k] == name
    ensures k == Integer ==> Standard.escapes[k] == number
    ensures k == String ==> Standard.escapes[k] == "\""
    ensures k == Character ==> Standard.escapes[k] == "'"
  {
  }

  /** The character at `j` stays in a token of kind `k`. */
  lemma StaysIs(raw: string, k: Kind, j: nat)
    requires 0 < j < |raw|
    ensures Standard.Stays(raw, k, j)
       <==> && !(k == Integer && raw[j] == '.' && j + 1 < |raw| && raw[j + 1] == '.')
            && (Ends(k, raw[j]) ==> Pair(raw[j - 1], raw[j]))
  {
    EndsAre(k, raw[j]);
    PairsAre(raw[j - 1], raw[j]);
    assert k in Standard.forced <==> k == Integer;
    assert k == Integer ==> Standard.forced[k] == ('.', '.');
  }

  // ------------------------------------------------------------- tokens in a cut

  /** After `n` pieces the cut stands at `i`, outside of a token. */
  predicate StandsAt(open: Kind, pieces: seq<Piece>, n: nat, i: nat) {
    n <= |pieces| && End(pieces[..n]) == i && OpenAt(open, pieces[..n]) == Nothing
  }

  /** A good piece that begins there is the next piece. */
  lemma NextPiece(t: Tables, raw: string, open: Kind, pieces: seq<Piece>, k: Kind, n: nat, p: Piece)
    requires CutUpTo(t, raw, open, pieces, k, |raw|) && StandsAt(open, pieces, n, p.from) && Good(t, raw, Nothing, p)
    ensures n < |pieces| && pieces[n] == p && StandsAt(open, pieces, n + 1, p.to)
  {
    if n < |pieces| {
      assert Fits(t, raw, open, pieces, n);
      assert n > 0 ==> pieces[..n][n - 1] == pieces[n - 1];
      assert pieces[..n + 1][n] == pieces[n];
    } else {
      assert pieces[..n] == pieces;
      NoPiece(t, raw, Nothing, k, p.from, p);
      assert false;
    }
  }

  /** A cut of a text by the language's tables. */
  ghost predicate Cut(raw: string, open: Kind, pieces: seq<Piece>, k: Kind) {
    CutUpTo(Standard, raw, open, pieces, k, |raw|)
  }

  /** A token that ends in front of `to`. */
  lemma NextToken(raw: string, open: Kind, pieces: seq<Piece>, k: Kind, n: nat, p: Piece)
    requires Cut(raw, open, pieces, k) && StandsAt(open, pieces, n, p.from)
    requires 0 < p.from < p.to < |raw| && p.kind == Begins(raw[p.from]) != Nothing && !Quoted(p.kind)
    requires !Standard.Stays(raw, p.kind, p.to) && forall j | p.from < j < p.to :: Standard.Stays(raw, p.kind, j)
    ensures n < |pieces| && pieces[n] == p && StandsAt(open, pieces, n + 1, p.to)
  {
    StartIs(raw[p.from]);
    NextPiece(Standard, raw, open, pieces, k, n, p);
  }

  /** `b` does not end punctuation that it follows. */
  predicate Joined(a: char, b: char) {
    Ends(Punctuation, b) ==> Pair(a, b)
  }

  /** Punctuation goes on as long as its characters are joined. */
  lemma PunctuationToken(raw: string, open: Kind, pieces: seq<Piece>, k: Kind, n: nat, from: nat, to: nat)
    requires Cut(raw, open, pieces, k) && StandsAt(open, pieces, n, from)
    requires 0 < from < to < |raw| && Punct(raw[from])
    requires !Joined(raw[to - 1], raw[to]) && forall j | from < j < to :: Joined(raw[j - 1], raw[j])
    ensures n < |pieces| && pieces[n] == Piece(Punctuation, from, to) && StandsAt(open, pieces, n + 1, to)
  {
    forall j | from < j <= to
      ensures Standard.Stays(raw, Punctuation, j) <==> Joined(raw[j - 1], raw[j])
    {
      StaysIs(raw, Punctuation, j);
    }
    NextToken(raw, open, pieces, k, n, Piece(Punctuation, from, to));
  }

  /** `//`, `->`, `==` and every other pair is one token, if the character behind it ends it. */
  lemma PairIsOneToken(raw: string, open: Kind, pieces: seq<Piece>, k: Kind, n: nat, i: nat)
    requires Cut(raw, open, pieces, k) && StandsAt(open, pieces, n, i) && 0 < i && i + 2 < |raw|
    requires Pair(raw[i], raw[i + 1]) && !Joined(raw[i + 1], raw[i + 2])
    ensures n < |pieces| && pieces[n] == Piece(Punctuation, i, i + 2)
  {
    PunctuationToken(raw, open, pieces, k, n, i, i + 2);
  }

  /** Two punctuation characters that are no pair are two tokens, if the character behind them ends the second. */
  lemma NoPairIsTwoTokens(raw: string, open: Kind, pieces: seq<Piece>, k: Kind, n: nat, i: nat)
    requires Cut(raw, open, pieces, k) && StandsAt(open, pieces, n, i) && 0 < i && i + 2 < |raw|
    requires Punct(raw[i]) && Punct(raw[i + 1]) && !Joined(raw[i], raw[i + 1]) && !Joined(raw[i + 1], raw[i + 2])
    ensures n + 1 < |pieces| && pieces[n] == Piece(Punctuation, i, i + 1) && pieces[n + 1] == Piece(Punctuation, i + 1, i + 2)
  {
    PunctuationToken(raw, open, pieces, k, n, i, i + 1);
    PunctuationToken(raw, open, pieces, k, n + 1, i + 1, i + 2);
  }

  lemma NameGoesOn(raw: string, j: nat)
    requires 0 < j < |raw| && (Letter(raw[j]) || Digit(raw[j]))
    ensures Standard.Stays(raw, Identifier, j)
  {
    StaysIs(raw, Identifier, j);
  }

  /** Letters and digits behind a letter are one name, up to a symbol, a point or a break. */
  lemma NameToken(raw: string, open: Kind, pieces: seq<Piece>, k: Kind, n: nat, from: nat, to: nat)
    requires Cut(raw, open, pieces, k) && StandsAt(open, pieces, n, from) && 0 < from < to < |raw|
    requires Letter(raw[from]) && (forall j | from < j < to :: Letter(raw[j]) || Digit(raw[j])) && Ends(Identifier, raw[to])
    ensures n < |pieces| && pieces[n] == Piece(Identifier, from, to) && StandsAt(open, pieces, n + 1, to)
  {
    forall j | from < j < to
      ensures Standard.Stays(raw, Identifier, j)
    {
      NameGoesOn(raw, j);
    }
    NameEnds(raw, to);
    NextToken(raw, open, pieces, k, n, Piece(Identifier, from, to));
  }

  /** Nothing but letters, digits and characters outside of all tables extends a name. */
  lemma NameEnds(raw: string, j: nat)
    requires 0 < j < |raw| && (Letter(raw[j - 1]) || Digit(raw[j - 1]))
    ensures Standard.Stays(raw, Identifier, j) <==> !(Symbol(raw[j]) || raw[j] == '.' || Break(raw[j]))
  {
    StaysIs(raw, Identifier, j);
  }

  lemma NumberGoesOn(raw: string, j: nat)
    requires 0 < j && j + 1 < |raw| && (Digit(raw[j]) || (raw[j] == '.' && Digit(raw[j + 1])))
    ensures Standard.Stays(raw, Integer, j)
  {
    StaysIs(raw, Integer, j);
  }

  /** Digits, or digits around one point, are one number, up to a symbol, a break or two points. */
  lemma NumberToken(raw: string, open: Kind, pieces: seq<Piece>, k: Kind, n: nat, from: nat, to: nat)
    requires Cut(raw, open, pieces, k) && StandsAt(open, pieces, n, from) && 0 < from < to && to + 1 < |raw|
    requires Digit(raw[from]) && (forall j | from < j < to :: Digit(raw[j]) || (raw[j] == '.' && Digit(raw[j + 1])))
    requires Digit(raw[to - 1]) && (Symbol(raw[to]) || Break(raw[to]) || (raw[to] == '.' && raw[to + 1] == '.'))
    ensures n < |pieces| && pieces[n] == Piece(Integer, from, to) && StandsAt(open, pieces, n + 1, to)
  {
    forall j | from < j < to
      ensures Standard.Stays(raw, Integer, j)
    {
      NumberGoesOn(raw, j);
    }
    StaysIs(raw, Integer, to);
    NextToken(raw, open, pieces, k, n, Piece(Integer, from, to));
  }

  /** `1..2`: a number, the range operator and a number, for any digits. */
  lemma RangeTokens(raw: string, open: Kind, pieces: seq<Piece>, k: Kind, n: nat, a: nat, b: nat, c: nat)
    requires Cut(raw, open, pieces, k) && StandsAt(open, pieces, n, a) && 0 < a < b && b + 2 < c && c + 1 < |raw|
    requires (forall j | a <= j < b :: Digit(raw[j])) && raw[b] == raw[b + 1] == '.' && (forall j | b + 2 <= j < c :: Digit(raw[j]))
    requires Symbol(raw[c]) || Break(raw[c])
    ensures n + 2 < |pieces|
    ensures pieces[n] == Piece(Integer, a, b) && pieces[n + 1] == Piece(Punctuation, b, b + 2) && pieces[n + 2] == Piece(Integer, b + 2, c)
  {
    NumberToken(raw, open, pieces, k, n, a, b);
    PunctuationToken(raw, open, pieces, k, n + 1, b, b + 2);
    NumberToken(raw, open, pieces, k, n + 2, b + 2, c);
  }

  /** A literal goes from its quote to the next one like it. */
  lemma QuotedToken(raw: string, open: Kind, pieces: seq<Piece>, k: Kind, n: nat, from: nat, to: nat)
    requires Cut(raw, open, pieces, k) && StandsAt(open, pieces, n, from) && 0 < from < to < |raw|
    requires raw[from] == raw[to] && (raw[from] == '\"' || raw[from] == '\'') && forall j | from < j < to :: raw[j] != raw[from]
    ensures n < |pieces| && pieces[n] == Piece(if raw[from] == '\"' then String else Character, from, to + 1)
  {
    var kind := if raw[from] == '\"' then String else Character;
    forall j | from < j <= to
      ensures Standard.Stays(raw, kind, j) <==> raw[j] != raw[from]
    {
      LiteralGoesOn(raw, kind, j);
    }
    StartIs(raw[from]);
    NextPiece(Standard, raw, open, pieces, k, n, Piece(kind, from, to + 1));
  }

  lemma LiteralGoesOn(raw: string, k: Kind, j: nat)
    requires 0 < j < |raw| && Quoted(k)
    ensures Standard.Stays(raw, k, j) <==> raw[j] != (if k == String then '\"' else '\'')
  {
    StaysIs(raw, k, j);
  }

  /** A number with a point in it is labelled as a `Float`. */
  lemma Labels(text: string)
    ensures Label(Integer, text) == (if exists i | 0 <= i < |text| :: text[i] == '.' then Float else Integer)
    ensures forall k: Kind | k != Integer :: Label(k, text) == k
  {
  }

  /** Blanks and tabs are dropped; a newline is a token of its own, unless a tilde or a backquote follows. */
  lemma BlankOrNewline(raw: string, open: Kind, pieces: seq<Piece>, k: Kind, n: nat, i: nat)
    requires Cut(raw, open, pieces, k) && StandsAt(open, pieces, n, i) && 0 < i && i + 1 < |raw|
    requires raw[i] == ' ' || raw[i] == '\t' || (raw[i] == '\n' && Ends(EndOfLine, raw[i + 1]))
    ensures n < |pieces| && pieces[n] == Piece(if raw[i] == '\n' then EndOfLine else Nothing, i, i + 1)
  {
    StartIs(raw[i]);
    if raw[i] == '\n' {
      StaysIs(raw, EndOfLine, i + 1);
      NextToken(raw, open, pieces, k, n, Piece(EndOfLine, i, i + 1));
    } else {
      NextPiece(Standard, raw, open, pieces, k, n, Piece(Nothing, i, i + 1));
    }
  }
}
