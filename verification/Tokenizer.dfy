/**
 The tokenizer: a character state machine that steps back over the character
 that ended a token and carries an unfinished token over to the next file.
 */
module Tokenizer {
  /** Kinds of tokens; those that are told apart only after tokenizing and play no part here are `Labelled`. */
  datatype Kind =
    | Nothing | EndOfLine | EndOfFile | Comment
    | Identifier | Integer | Float | String | Character | Punctuation
    | LeftBrace | RightBrace | SemiColon | Labelled

  datatype Token = Token(text: string, kind: Kind, line: nat, column: nat)

  /**
   What drives the machine.  `starts` is searched in order; `forced` ends a
   token of its kind before the given pair of characters.
   */
  datatype Tables = Tables(starts: seq<(Kind, string)>, escapes: map<Kind, string>, cancels: seq<(string, string)>, forced: map<Kind, (char, char)>)
  {
    function StartFrom(c: char, n: nat): Kind
      decreases |starts| - n
    {
      if n >= |starts| then Nothing
      else if c in starts[n].1 then starts[n].0
      else StartFrom(c, n + 1)
    }

    /** The kind of token that `c` begins. */
    function Start(c: char): Kind {
      StartFrom(c, 0)
    }

    predicate Cancelled(last: char, c: char) {
      exists n | 0 <= n < |cancels| :: last in cancels[n].0 && c in cancels[n].1
    }

    /** The character at `j` does not end a token of kind `k` that reached it. */
    predicate Stays(raw: string, k: Kind, j: nat)
      requires 0 < j < |raw|
    {
      && !(k in forced && forced[k] == (raw[j], At(raw, j + 1)))
      && (k in escapes && raw[j] in escapes[k] ==> Cancelled(raw[j - 1], raw[j]))
    }
  }

  /** Reading at the end of a string gives the terminator. */
  function At(raw: string, j: nat): char {
    if j < |raw| then raw[j] else '\0'
  }

  predicate Quoted(k: Kind) {
    k == String || k == Character
  }

  // ------------------------------------------------------------- what a cut is

  /** A stretch of the input: a token, or a single dropped character (kind `Nothing`). */
  datatype Piece = Piece(kind: Kind, from: nat, to: nat)

  /** A token that is checked from `first` on ends at `to`, at the first character that does not stay. */
  ghost predicate Closed(t: Tables, raw: string, k: Kind, first: nat, to: nat) {
    var e := if Quoted(k) then to - 1 else to;
    && 0 < first <= e < |raw|
    && !t.Stays(raw, k, e)
    && forall j | first <= j < e :: t.Stays(raw, k, j)
  }

  /** A piece as it may stand in a cut; `open` is the kind of a token carried into it. */
  ghost predicate Good(t: Tables, raw: string, open: Kind, p: Piece) {
    if open != Nothing then p.kind == open && Closed(t, raw, open, p.from, p.to)
    else
      && p.from < |raw| && t.Start(raw[p.from]) == p.kind
      && if p.kind == Nothing then p.to == p.from + 1 else Closed(t, raw, p.kind, p.from + 1, p.to)
  }

  /** Where the pieces end; the first character of the padded text is never read. */
  function End(pieces: seq<Piece>): nat {
    if pieces == [] then 1 else pieces[|pieces| - 1].to
  }

  function OpenAt(open: Kind, pieces: seq<Piece>): Kind {
    if pieces == [] then open else Nothing
  }

  /** Piece `i` follows on the one before it. */
  ghost predicate Fits(t: Tables, raw: string, open: Kind, pieces: seq<Piece>, i: nat)
    requires i < |pieces|
  {
    if i == 0 then pieces[0].from == 1 && Good(t, raw, open, pieces[0])
    else pieces[i].from == pieces[i - 1].to && Good(t, raw, Nothing, pieces[i])
  }

  ghost predicate Chain(t: Tables, raw: string, open: Kind, pieces: seq<Piece>) {
    forall i | 0 <= i < |pieces| :: Fits(t, raw, open, pieces, i)
  }

  /** From `from` to `i` a token of kind `k` (`Nothing`: no token) has been read and not ended. */
  ghost predicate Reading(t: Tables, raw: string, open: Kind, k: Kind, from: nat, i: nat) {
    && 0 < from <= i <= |raw|
    && if k == Nothing then open == Nothing && from == i
       else
         && (open != Nothing ==> k == open)
         && (open == Nothing ==> from < i && t.Start(raw[from]) == k)
         && forall j | (if open != Nothing then from else from + 1) <= j < i :: t.Stays(raw, k, j)
  }

  /** The pieces, and a token of kind `k` that is still unfinished, make up the text up to `i`. */
  ghost predicate CutUpTo(t: Tables, raw: string, open: Kind, pieces: seq<Piece>, k: Kind, i: nat) {
    Chain(t, raw, open, pieces) && Reading(t, raw, OpenAt(open, pieces), k, End(pieces), i)
  }

  /** There is only one way to cut a text. */
  lemma {:induction false} CutUnique(t: Tables, raw: string, open: Kind, ps: seq<Piece>, k: Kind, qs: seq<Piece>, k': Kind)
    requires CutUpTo(t, raw, open, ps, k, |raw|) && CutUpTo(t, raw, open, qs, k', |raw|)
    ensures ps == qs && k == k'
  {
    var n := if |ps| <= |qs| then |ps| else |qs|;
    CommonPrefix(t, raw, open, ps, qs, n);
    if |ps| < |qs| {
      FinishedOrNot(t, raw, open, ps, k, qs);
    } else if |qs| < |ps| {
      FinishedOrNot(t, raw, open, qs, k', ps);
    }
  }

  lemma {:induction false} CommonPrefix(t: Tables, raw: string, open: Kind, ps: seq<Piece>, qs: seq<Piece>, n: nat)
    requires Chain(t, raw, open, ps) && Chain(t, raw, open, qs) && n <= |ps| && n <= |qs|
    ensures forall i | 0 <= i < n :: ps[i] == qs[i]
    decreases n
  {
    if n > 0 {
      CommonPrefix(t, raw, open, ps, qs, n - 1);
      OnePiece(t, raw, open, ps, qs, n - 1);
    }
  }

  lemma OnePiece(t: Tables, raw: string, open: Kind, ps: seq<Piece>, qs: seq<Piece>, n: nat)
    requires n < |ps| && n < |qs| && (n > 0 ==> ps[n - 1] == qs[n - 1]) && Chain(t, raw, open, ps) && Chain(t, raw, open, qs)
    ensures ps[n] == qs[n]
  {
    assert Fits(t, raw, open, ps, n) && Fits(t, raw, open, qs, n);
  }

  /** Where a text ends inside a token, or outside of one, no further piece fits. */
  lemma FinishedOrNot(t: Tables, raw: string, open: Kind, ps: seq<Piece>, k: Kind, qs: seq<Piece>)
    requires CutUpTo(t, raw, open, ps, k, |raw|) && Chain(t, raw, open, qs) && |ps| <= |qs|
    requires ps != [] ==> ps[|ps| - 1] == qs[|ps| - 1]
    ensures |ps| == |qs|
  {
    if |ps| < |qs| {
      assert Fits(t, raw, open, qs, |ps|);
      NoPiece(t, raw, OpenAt(open, ps), k, End(ps), qs[|ps|]);
      assert false;
    }
  }

  lemma NoPiece(t: Tables, raw: string, open: Kind, k: Kind, from: nat, q: Piece)
    requires Reading(t, raw, open, k, from, |raw|) && q.from == from
    ensures !Good(t, raw, open, q)
  {
  }

  // ------------------------------------------------------- tokens of the pieces

  /** The text from `a` to `b`, empty when there is none. */
  function Part(raw: string, a: nat, b: nat): string {
    if a <= b <= |raw| then raw[a..b] else ""
  }

  function Text(raw: string, held: string, pieces: seq<Piece>, to: nat): string {
    (if pieces == [] then held else "") + Part(raw, End(pieces), to)
  }

  /** A number with a point in it is a `Float`. */
  function Label(k: Kind, text: string): Kind {
    if k == Integer && '.' in text then Float else k
  }

  function LineCount(pieces: seq<Piece>): nat {
    if pieces == [] then 0
    else LineCount(pieces[..|pieces| - 1]) + if pieces[|pieces| - 1].kind == EndOfLine then 1 else 0
  }

  /** Where the current line begins: after the last end-of-line token. */
  function LineStart(pieces: seq<Piece>): nat {
    if pieces == [] then 1
    else if pieces[|pieces| - 1].kind == EndOfLine then pieces[|pieces| - 1].to
    else LineStart(pieces[..|pieces| - 1])
  }

  /** Characters from `a` to `b` other than tabs. */
  function Width(raw: string, a: nat, b: nat): nat
    requires b <= |raw|
  {
    if b <= a then 0 else Width(raw, a, b - 1) + if raw[b - 1] == '\t' then 0 else 1
  }

  /** Columns count from one, without tabs; a carried-over token has none. */
  function Column(raw: string, open: Kind, pieces: seq<Piece>): nat {
    if OpenAt(open, pieces) != Nothing || End(pieces) > |raw| then 0 else Width(raw, LineStart(pieces), End(pieces)) + 1
  }

  function TokensOf(raw: string, open: Kind, held: string, pieces: seq<Piece>): seq<Token>
  {
    if pieces == [] then []
    else
      var before, p := pieces[..|pieces| - 1], pieces[|pieces| - 1];
      var earlier := TokensOf(raw, open, held, before);
      if p.kind == Nothing then earlier
      else
        var text := Text(raw, held, before, p.to);
        earlier + [Token(text, Label(p.kind, text), LineCount(pieces), Column(raw, open, before))]
  }

  // --------------------------------------------------------------- the machine

  function WithoutReturns(s: string): string {
    if s == "" then "" else WithoutReturns(s[..|s| - 1]) + if s[|s| - 1] == '\r' then "" else [s[|s| - 1]]
  }

  /** The text as it is read: without carriage returns, between two newlines. */
  function Padded(file: string): string {
    "\n" + WithoutReturns(file) + "\n"
  }

  lemma ExtendChain(t: Tables, raw: string, open: Kind, pieces: seq<Piece>, p: Piece)
    requires Chain(t, raw, open, pieces) && p.from == End(pieces) && Good(t, raw, OpenAt(open, pieces), p)
    ensures Chain(t, raw, open, pieces + [p])
  {
    var all := pieces + [p];
    forall i | 0 <= i < |all|
      ensures Fits(t, raw, open, all, i)
    {
      assert i < |pieces| ==> Fits(t, raw, open, pieces, i);
    }
  }

  datatype State = State(kind: Kind, text: string, i: nat, tokens: seq<Token>, line: nat, index: nat, start: nat)

  /** The state of the machine when the text up to `s.i` has been cut into `pieces`. */
  ghost predicate Reached(t: Tables, raw: string, open: Kind, held: string, pieces: seq<Piece>, s: State) {
    CutUpTo(t, raw, open, pieces, s.kind, s.i) && Booked(raw, open, held, pieces, s)
  }

  ghost predicate Booked(raw: string, open: Kind, held: string, pieces: seq<Piece>, s: State) {
    && (s.kind == Nothing ==> s.text == "")
    && s.text == Text(raw, held, pieces, s.i)
    && s.tokens == TokensOf(raw, open, held, pieces)
    && s.line == LineCount(pieces)
    && LineStart(pieces) <= End(pieces) <= s.i <= |raw|
    && s.index == Width(raw, LineStart(pieces), s.i)
    && (s.kind != Nothing ==> s.start == Column(raw, open, pieces))
  }

  lemma ReachedAtStart(t: Tables, raw: string, open: Kind, held: string)
    requires raw != "" && (open == Nothing ==> held == "")
    ensures Reached(t, raw, open, held, [], State(open, held, 1, [], 0, 0, 0))
  {
    assert raw[1..1] == "" && held + "" == held;
  }

  lemma ReachedEnd(t: Tables, raw: string, open: Kind, held: string, pieces: seq<Piece>, s: State)
    requires Reached(t, raw, open, held, pieces, s) == true && s.i >= |raw|
    ensures CutUpTo(t, raw, open, pieces, s.kind, |raw|) && s.tokens == TokensOf(raw, open, held, pieces)
    ensures s.text == Text(raw, held, pieces, |raw|) && s.line == LineCount(pieces)
  {
  }

  /** Tabs do not count. */
  function Advance(index: nat, c: char): nat {
    if c == '\t' then index else index + 1
  }

  /** A character read outside a token begins one, or is dropped. */
  function Outside(t: Tables, raw: string, s: State): State
    requires s.i < |raw|
  {
    var k, c := t.Start(raw[s.i]), raw[s.i];
    State(k, if k == Nothing then "" else [c], s.i + 1, s.tokens, s.line, Advance(s.index, c), if k == Nothing then s.start else s.index + 1)
  }

  function Inside(raw: string, s: State): State
    requires s.i < |raw|
  {
    State(s.kind, s.text + [raw[s.i]], s.i + 1, s.tokens, s.line, Advance(s.index, raw[s.i]), s.start)
  }

  /** A quoted token takes the character that ends it, the others leave it to be read again. */
  function Ended(raw: string, s: State): State
    requires s.i < |raw|
  {
    var quoted := Quoted(s.kind);
    var line := if s.kind == EndOfLine then s.line + 1 else s.line;
    var text := if quoted then s.text + [raw[s.i]] else s.text;
    State(Nothing, "", if quoted then s.i + 1 else s.i, s.tokens + [Token(text, Label(s.kind, text), line, s.start)],
      line, if s.kind == EndOfLine then 0 else if quoted then Advance(s.index, raw[s.i]) else s.index, s.start)
  }

  lemma StepOutside(t: Tables, raw: string, open: Kind, held: string, pieces: seq<Piece>, s: State) returns (now: seq<Piece>)
    requires Reached(t, raw, open, held, pieces, s) && s.i < |raw| && s.kind == Nothing
    ensures Reached(t, raw, open, held, now, Outside(t, raw, s))
  {
    if t.Start(raw[s.i]) == Nothing {
      var p := Piece(Nothing, s.i, s.i + 1);
      ExtendChain(t, raw, open, pieces, p);
      BookedDropped(t, raw, open, held, pieces, s);
      now := pieces + [p];
    } else {
      BookedStarted(t, raw, open, held, pieces, s);
      now := pieces;
    }
  }

  lemma BookedDropped(t: Tables, raw: string, open: Kind, held: string, pieces: seq<Piece>, s: State)
    requires Booked(raw, open, held, pieces, s) && s.i < |raw| && s.kind == Nothing && t.Start(raw[s.i]) == Nothing
    requires End(pieces) == s.i && OpenAt(open, pieces) == Nothing
    ensures Booked(raw, open, held, pieces + [Piece(Nothing, s.i, s.i + 1)], Outside(t, raw, s))
  {
    Extended(raw, open, held, pieces, Piece(Nothing, s.i, s.i + 1));
  }

  lemma BookedStarted(t: Tables, raw: string, open: Kind, held: string, pieces: seq<Piece>, s: State)
    requires Booked(raw, open, held, pieces, s) && s.i < |raw| && s.kind == Nothing && t.Start(raw[s.i]) != Nothing
    requires End(pieces) == s.i && OpenAt(open, pieces) == Nothing
    ensures Booked(raw, open, held, pieces, Outside(t, raw, s))
  {
    TextGrows(raw, held, pieces, s.i);
  }

  lemma StepInside(t: Tables, raw: string, open: Kind, held: string, pieces: seq<Piece>, s: State)
    requires Reached(t, raw, open, held, pieces, s) && s.i < |raw| && s.kind != Nothing && t.Stays(raw, s.kind, s.i)
    ensures Reached(t, raw, open, held, pieces, Inside(raw, s))
  {
    BookedInside(raw, open, held, pieces, s);
    ReadOn(t, raw, OpenAt(open, pieces), s.kind, End(pieces), s.i);
  }

  lemma ReadOn(t: Tables, raw: string, open: Kind, k: Kind, from: nat, i: nat)
    requires Reading(t, raw, open, k, from, i) && k != Nothing && i < |raw| && t.Stays(raw, k, i)
    ensures Reading(t, raw, open, k, from, i + 1)
  {
  }

  lemma BookedInside(raw: string, open: Kind, held: string, pieces: seq<Piece>, s: State)
    requires Booked(raw, open, held, pieces, s) && s.i < |raw| && s.kind != Nothing
    ensures Booked(raw, open, held, pieces, Inside(raw, s))
  {
    TextGrows(raw, held, pieces, s.i);
  }

  lemma CutEnded(t: Tables, raw: string, open: Kind, pieces: seq<Piece>, k: Kind, i: nat, p: Piece)
    requires CutUpTo(t, raw, open, pieces, k, i) && i < |raw| && k != Nothing && !t.Stays(raw, k, i)
    requires p == Piece(k, End(pieces), if Quoted(k) then i + 1 else i)
    ensures CutUpTo(t, raw, open, pieces + [p], Nothing, p.to)
  {
    EndsGood(t, raw, OpenAt(open, pieces), k, End(pieces), i);
    ExtendChain(t, raw, open, pieces, p);
  }

  lemma EndsGood(t: Tables, raw: string, open: Kind, k: Kind, from: nat, i: nat)
    requires Reading(t, raw, open, k, from, i) && i < |raw| && k != Nothing && !t.Stays(raw, k, i)
    ensures Good(t, raw, open, Piece(k, from, if Quoted(k) then i + 1 else i))
  {
  }

  lemma StepEnd(t: Tables, raw: string, open: Kind, held: string, pieces: seq<Piece>, s: State) returns (now: seq<Piece>)
    requires Reached(t, raw, open, held, pieces, s) && s.i < |raw| && s.kind != Nothing && !t.Stays(raw, s.kind, s.i)
    ensures Reached(t, raw, open, held, now, Ended(raw, s))
  {
    var p := Piece(s.kind, End(pieces), if Quoted(s.kind) then s.i + 1 else s.i);
    CutEnded(t, raw, open, pieces, s.kind, s.i, p);
    BookedEnded(raw, open, held, pieces, p, s);
    now := pieces + [p];
  }

  lemma BookedEnded(raw: string, open: Kind, held: string, pieces: seq<Piece>, p: Piece, s: State)
    requires Booked(raw, open, held, pieces, s) && s.i < |raw| && s.kind != Nothing
    requires p == Piece(s.kind, End(pieces), if Quoted(s.kind) then s.i + 1 else s.i)
    ensures Booked(raw, open, held, pieces + [p], Ended(raw, s))
  {
    Extended(raw, open, held, pieces, p);
    if Quoted(s.kind) {
      TextGrows(raw, held, pieces, s.i);
    }
  }

  class Lexer {
    const tables: Tables
    var currentToken: Kind
    var tokenContent: string

    ghost predicate Valid()
      reads this
    {
      currentToken == Nothing ==> tokenContent == ""
    }

    constructor (t: Tables)
      ensures Valid() && tables == t && currentToken == Nothing
    {
      tables, currentToken, tokenContent := t, Nothing, "";
    }

    /**
     `tokenize`: cuts the padded text, in the only way there is, and returns
     one token for each piece that is one.
     */
    method Tokenize(file: string) returns (tokens: seq<Token>, ghost pieces: seq<Piece>)
      requires Valid()
      modifies this
      ensures Valid()
      ensures CutUpTo(tables, Padded(file), old(currentToken), pieces, currentToken, |Padded(file)|)
      ensures tokens == TokensOf(Padded(file), old(currentToken), old(tokenContent), pieces) + [Token("", EndOfFile, LineCount(pieces) + 1, 0)]
      ensures tokenContent == Text(Padded(file), old(tokenContent), pieces, |Padded(file)|)
    {
      var output := RemoveReturns(file);
      var raw := "\n" + output + "\n";
      ghost var open, held := currentToken, tokenContent;
      var lineNumber: nat, indexInLine: nat, startIndexInLine: nat := 0, 0, 0;
      tokens, pieces := [], [];
      var i: nat := 1;
      ReachedAtStart(tables, raw, open, held);
      while i < |raw|
        invariant i <= |raw|
        invariant Reached(tables, raw, open, held, pieces, State(currentToken, tokenContent, i, tokens, lineNumber, indexInLine, startIndexInLine)) == true
        decreases |raw| - i, if currentToken == Nothing then 0 else 1
      {
        ghost var s := State(currentToken, tokenContent, i, tokens, lineNumber, indexInLine, startIndexInLine);
        var c := raw[i];
        if currentToken == Nothing {
          pieces := StepOutside(tables, raw, open, held, pieces, s);
          currentToken := tables.Start(c);
          if currentToken != Nothing {
            tokenContent := tokenContent + [c];
            startIndexInLine := indexInLine + 1;
          }
          indexInLine := Advance(indexInLine, c);
          i := i + 1;
          assert State(currentToken, tokenContent, i, tokens, lineNumber, indexInLine, startIndexInLine) == Outside(tables, raw, s);
        } else if tables.Stays(raw, currentToken, i) {
          StepInside(tables, raw, open, held, pieces, s);
          tokenContent := tokenContent + [c];
          indexInLine := Advance(indexInLine, c);
          i := i + 1;
          assert State(currentToken, tokenContent, i, tokens, lineNumber, indexInLine, startIndexInLine) == Inside(raw, s);
        } else {
          pieces := StepEnd(tables, raw, open, held, pieces, s);
          if Quoted(currentToken) {
            tokenContent := tokenContent + [c];
            indexInLine := Advance(indexInLine, c);
            i := i + 1;
          }
          if currentToken == EndOfLine {
            lineNumber := lineNumber + 1;
            indexInLine := 0;
          }
          tokens := tokens + [Token(tokenContent, Label(currentToken, tokenContent), lineNumber, startIndexInLine)];
          tokenContent := "";
          currentToken := Nothing;
          assert State(currentToken, tokenContent, i, tokens, lineNumber, indexInLine, startIndexInLine) == Ended(raw, s);
        }
      }
      ReachedEnd(tables, raw, open, held, pieces, State(currentToken, tokenContent, i, tokens, lineNumber, indexInLine, startIndexInLine));
      tokens := tokens + [Token("", EndOfFile, lineNumber + 1, 0)];
    }

    method RemoveReturns(file: string) returns (output: string)
      ensures output == WithoutReturns(file)
    {
      output := "";
      for n := 0 to |file|
        invariant output == WithoutReturns(file[..n])
      {
        assert file[..n + 1][..n] == file[..n];
        if file[n] != '\r' {
          output := output + [file[n]];
        }
      }
      assert file[..|file|] == file;
    }
  }

  lemma TextGrows(raw: string, held: string, pieces: seq<Piece>, i: nat)
    requires End(pieces) <= i < |raw|
    ensures Text(raw, held, pieces, i + 1) == Text(raw, held, pieces, i) + [raw[i]]
  {
    var a := End(pieces);
    assert raw[a..i + 1] == raw[a..i] + [raw[i]];
  }

  /** One more piece. */
  lemma Extended(raw: string, open: Kind, held: string, pieces: seq<Piece>, p: Piece)
    ensures var all := pieces + [p];
            && End(all) == p.to
            && LineCount(all) == LineCount(pieces) + (if p.kind == EndOfLine then 1 else 0)
            && LineStart(all) == (if p.kind == EndOfLine then p.to else LineStart(pieces))
            && TokensOf(raw, open, held, all) == TokensOf(raw, open, held, pieces) + if p.kind == Nothing then [] else
                 var text := Text(raw, held, pieces, p.to);
                 [Token(text, Label(p.kind, text), LineCount(all), Column(raw, open, pieces))]
  {
    assert (pieces + [p])[..|pieces|] == pieces;
  }
}
