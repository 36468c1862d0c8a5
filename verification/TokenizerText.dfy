/** What a run of the tokenizer keeps of its text, and where it leaves off. */
module TokenizerText {
  import opened Tokenizer

  // ------------------------------------------------------------ nothing is lost

  function Texts(tokens: seq<Token>): string {
    if tokens == [] then "" else Texts(tokens[..|tokens| - 1]) + tokens[|tokens| - 1].text
  }

  /** The text carried over and all pieces as they were read, with or without the dropped ones. */
  function Written(raw: string, held: string, pieces: seq<Piece>, withDropped: bool): string {
    if pieces == [] then held
    else
      var p := pieces[|pieces| - 1];
      Written(raw, held, pieces[..|pieces| - 1], withDropped) + if p.kind == Nothing && !withDropped then "" else Part(raw, p.from, p.to)
  }

  lemma PrefixChain(t: Tables, raw: string, open: Kind, pieces: seq<Piece>)
    requires Chain(t, raw, open, pieces) && pieces != []
    ensures var before, p := pieces[..|pieces| - 1], pieces[|pieces| - 1];
            Chain(t, raw, open, before) && p.from == End(before) && Good(t, raw, OpenAt(open, before), p)
  {
    var before := pieces[..|pieces| - 1];
    forall i | 0 <= i < |before|
      ensures Fits(t, raw, open, before, i)
    {
      assert Fits(t, raw, open, pieces, i);
    }
    assert Fits(t, raw, open, pieces, |pieces| - 1);
  }

  /** What has become of the text up to the end of the pieces. */
  function Kept(raw: string, open: Kind, held: string, pieces: seq<Piece>): string {
    if pieces == [] then held else Texts(TokensOf(raw, open, held, pieces))
  }

  lemma {:induction false} AllWritten(t: Tables, raw: string, open: Kind, held: string, pieces: seq<Piece>)
    requires Chain(t, raw, open, pieces) && |raw| > 0
    ensures 1 <= End(pieces) <= |raw| && Written(raw, held, pieces, true) == held + raw[1..End(pieces)]
    decreases |pieces|
  {
    if pieces == [] {
      assert held + raw[1..1] == held;
    } else {
      var before, p := pieces[..|pieces| - 1], pieces[|pieces| - 1];
      PrefixChain(t, raw, open, pieces);
      AllWritten(t, raw, open, held, before);
      GoodBounds(t, raw, OpenAt(open, before), p);
      UpTo(held, raw, p.from, p.to);
    }
  }

  lemma {:induction false} TokensWritten(t: Tables, raw: string, open: Kind, held: string, pieces: seq<Piece>)
    requires Chain(t, raw, open, pieces) && |raw| > 0 && (open == Nothing ==> held == "")
    ensures Kept(raw, open, held, pieces) == Written(raw, held, pieces, false)
    decreases |pieces|
  {
    if pieces != [] {
      var before, p := pieces[..|pieces| - 1], pieces[|pieces| - 1];
      PrefixChain(t, raw, open, pieces);
      TokensWritten(t, raw, open, held, before);
      GoodBounds(t, raw, OpenAt(open, before), p);
      LastText(raw, open, held, before, p);
      LastPiece(pieces);
    }
  }

  lemma LastPiece(pieces: seq<Piece>)
    requires pieces != []
    ensures pieces == pieces[..|pieces| - 1] + [pieces[|pieces| - 1]]
  {
  }

  lemma GoodBounds(t: Tables, raw: string, open: Kind, p: Piece)
    requires Good(t, raw, open, p)
    ensures p.from <= p.to <= |raw| && (p.kind == Nothing ==> p.to == p.from + 1 && t.Start(raw[p.from]) == Nothing)
  {
  }

  lemma LastText(raw: string, open: Kind, held: string, before: seq<Piece>, p: Piece)
    requires p.from == End(before) <= p.to <= |raw| && (before == [] && p.kind == Nothing ==> held == "")
    ensures Kept(raw, open, held, before + [p]) == if p.kind == Nothing then Kept(raw, open, held, before) else Kept(raw, open, held, before) + raw[p.from..p.to]
  {
    Extended(raw, open, held, before, p);
    if p.kind != Nothing {
      var earlier, all := TokensOf(raw, open, held, before), TokensOf(raw, open, held, before + [p]);
      assert all[..|all| - 1] == earlier;
      var part := raw[p.from..p.to];
      assert Part(raw, p.from, p.to) == part;
      assert Texts(all) == Texts(earlier) + all[|all| - 1].text;
      if before == [] {
        assert Texts(all) == "" + (held + part) == held + part;
      } else {
        assert all[|all| - 1].text == "" + part == part;
      }
    }
  }

  /** The dropped pieces are single characters that begin no token, read outside of any. */
  lemma {:induction false} Dropped(t: Tables, raw: string, open: Kind, pieces: seq<Piece>, i: nat)
    requires Chain(t, raw, open, pieces) && i < |pieces| && pieces[i].kind == Nothing
    ensures pieces[i].from < |raw| && pieces[i].to == pieces[i].from + 1 && t.Start(raw[pieces[i].from]) == Nothing
    decreases |pieces|
  {
    PrefixChain(t, raw, open, pieces);
    if i == |pieces| - 1 {
      GoodBounds(t, raw, OpenAt(open, pieces[..i]), pieces[i]);
    } else {
      Dropped(t, raw, open, pieces[..|pieces| - 1], i);
    }
  }

  /**
   The text carried over and the text read are all pieces and the rest; the
   texts of the tokens and the text still pending are the same without the
   dropped pieces.
   */
  lemma NothingLost(t: Tables, raw: string, open: Kind, held: string, pieces: seq<Piece>, k: Kind)
    requires CutUpTo(t, raw, open, pieces, k, |raw|) && |raw| > 0 && (open == Nothing ==> held == "")
    ensures End(pieces) <= |raw|
    ensures held + raw[1..] == Written(raw, held, pieces, true) + raw[End(pieces)..]
    ensures Texts(TokensOf(raw, open, held, pieces)) + Text(raw, held, pieces, |raw|) == Written(raw, held, pieces, false) + raw[End(pieces)..]
  {
    AllWritten(t, raw, open, held, pieces);
    TokensWritten(t, raw, open, held, pieces);
    SplitAt(held, raw, End(pieces));
    PendingRest(raw, open, held, pieces);
  }

  lemma UpTo(held: string, raw: string, a: nat, b: nat)
    requires 1 <= a <= b <= |raw|
    ensures held + raw[1..a] + raw[a..b] == held + raw[1..b]
  {
  }

  lemma SplitAt(held: string, raw: string, a: nat)
    requires 1 <= a <= |raw|
    ensures held + raw[1..] == held + raw[1..a] + raw[a..]
  {
  }

  lemma PendingRest(raw: string, open: Kind, held: string, pieces: seq<Piece>)
    requires End(pieces) <= |raw|
    ensures Texts(TokensOf(raw, open, held, pieces)) + Text(raw, held, pieces, |raw|) == Kept(raw, open, held, pieces) + raw[End(pieces)..]
  {
    assert Part(raw, End(pieces), |raw|) == raw[End(pieces)..];
    RestKept(Texts(TokensOf(raw, open, held, pieces)), held, raw[End(pieces)..], pieces == []);
  }

  lemma RestKept(texts: string, held: string, part: string, first: bool)
    requires first ==> texts == ""
    ensures texts + ((if first then held else "") + part) == (if first then held else texts) + part
  {
  }

  // ------------------------------------------------------- the language's tables

  /** The kinds the machine can be in between two characters. */
  predicate Open(k: Kind) {
    k == Nothing || k == EndOfLine || k == Identifier || k == Integer || k == String || k == Character || k == Punctuation
  }

  /** Newlines end everything but quoted tokens, and begin an end-of-line token. */
  ghost predicate LineTables(t: Tables) {
    && (forall c :: (t.Start(c) == EndOfLine <==> c == '\n') && Open(t.Start(c)))
    && forall raw: string, k, j: nat | 0 < j < |raw| && raw[j] == '\n' && Open(k) && k != Nothing :: t.Stays(raw, k, j) <==> Quoted(k)
  }

  /**
   Every text leaves its last end of line pending for the next one, unless it
   ends within a string or a character literal.
   */
  lemma LeavesOffAtLineEnd(t: Tables, raw: string, open: Kind, held: string, pieces: seq<Piece>, k: Kind)
    requires LineTables(t) && CutUpTo(t, raw, open, pieces, k, |raw|) && |raw| > 1 && raw[|raw| - 1] == '\n' && Open(open) && (open == Nothing ==> held == "")
    ensures Open(k)
    ensures Quoted(k) || (k == EndOfLine && Text(raw, held, pieces, |raw|) == "\n")
  {
    var last := |raw| - 1;
    assert t.Start('\n') == EndOfLine;
    if k == Nothing {
      var p := pieces[|pieces| - 1];
      PrefixChain(t, raw, open, pieces);
      NoPieceTakesNewline(t, raw, OpenAt(open, pieces[..|pieces| - 1]), p);
      assert false;
    } else {
      var from := End(pieces);
      assert from < |raw| ==> Open(t.Start(raw[from]));
      assert t.Stays(raw, k, last) <==> Quoted(k);
      if !Quoted(k) {
        assert from == last && OpenAt(open, pieces) == Nothing;
        assert raw[last..] == "\n";
      }
    }
  }

  lemma NoPieceTakesNewline(t: Tables, raw: string, open: Kind, p: Piece)
    requires LineTables(t) && |raw| > 1 && raw[|raw| - 1] == '\n' && Good(t, raw, open, p) && Open(open) && p.from < |raw|
    ensures p.to < |raw|
  {
    assert Open(t.Start(raw[p.from]));
    if p.to == |raw| && p.kind != Nothing {
      assert false;
    }
  }

  // ---------------------------------------------------------------- line numbers

  function Newlines(raw: string, a: nat, b: nat): nat
    requires b <= |raw|
  {
    if b <= a then 0 else Newlines(raw, a, b - 1) + if raw[b - 1] == '\n' then 1 else 0
  }

  /** Newlines inside strings and character literals. */
  function QuotedNewlines(raw: string, pieces: seq<Piece>): nat {
    if pieces == [] then 0
    else
      var p := pieces[|pieces| - 1];
      QuotedNewlines(raw, pieces[..|pieces| - 1]) + if Quoted(p.kind) && p.to <= |raw| then Newlines(raw, p.from, p.to) else 0
  }

  lemma {:induction false} NewlinesSplit(raw: string, a: nat, b: nat, c: nat)
    requires a <= b <= c <= |raw|
    ensures Newlines(raw, a, c) == Newlines(raw, a, b) + Newlines(raw, b, c)
    decreases c
  {
    if b < c {
      NewlinesSplit(raw, a, b, c - 1);
    }
  }

  lemma {:induction false} NoNewlines(raw: string, a: nat, b: nat)
    requires b <= |raw| && forall j | a <= j < b :: raw[j] != '\n'
    ensures Newlines(raw, a, b) == 0
    decreases b
  {
    if a < b {
      NoNewlines(raw, a, b - 1);
    }
  }

  lemma PieceNewlines(t: Tables, raw: string, open: Kind, p: Piece)
    requires LineTables(t) && Good(t, raw, open, p) && Open(open) && p.from <= p.to <= |raw| && !Quoted(p.kind)
    ensures Newlines(raw, p.from, p.to) == if open == Nothing && p.kind == EndOfLine then 1 else 0
  {
    assert p.from < |raw| ==> Open(t.Start(raw[p.from]));
    var first := if open == Nothing then p.from + 1 else p.from;
    forall j | first <= j < p.to
      ensures raw[j] != '\n'
    {
      if raw[j] == '\n' {
        assert false;
      }
    }
    if first <= p.to {
      NewlinesSplit(raw, p.from, first, p.to);
      NoNewlines(raw, first, p.to);
    }
  }

  /**
   The line number falls behind the newlines read by those inside string and
   character literals, and by nothing else.
   */
  lemma {:induction false} LineNumberLag(t: Tables, raw: string, open: Kind, pieces: seq<Piece>)
    requires LineTables(t) && Chain(t, raw, open, pieces) && Open(open) && |raw| > 0
    ensures End(pieces) <= |raw|
    ensures LineCount(pieces) + QuotedNewlines(raw, pieces) == Newlines(raw, 1, End(pieces)) + if pieces != [] && open == EndOfLine then 1 else 0
    decreases |pieces|
  {
    if pieces != [] {
      var before, p := pieces[..|pieces| - 1], pieces[|pieces| - 1];
      PrefixChain(t, raw, open, pieces);
      LineNumberLag(t, raw, open, before);
      GoodBounds(t, raw, OpenAt(open, before), p);
      EndAtLeast(t, raw, open, before);
      NewlinesSplit(raw, 1, p.from, p.to);
      if !Quoted(p.kind) {
        PieceNewlines(t, raw, OpenAt(open, before), p);
      }
    }
  }

  lemma EndAtLeast(t: Tables, raw: string, open: Kind, pieces: seq<Piece>)
    requires Chain(t, raw, open, pieces)
    ensures End(pieces) >= 1
  {
    if pieces != [] {
      PrefixChain(t, raw, open, pieces);
      EndAtLeast(t, raw, open, pieces[..|pieces| - 1]);
      GoodBounds(t, raw, OpenAt(open, pieces[..|pieces| - 1]), pieces[|pieces| - 1]);
    }
  }
}
