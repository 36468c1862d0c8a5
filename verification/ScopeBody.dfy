/** Gathering the tokens of a scope up to its closing brace. */
module ScopeBody {
  import opened Tokenizer

  /** What was gathered, where it ended, and whether it ended without a brace; or no brace matched. */
  datatype Gathered = Gathered(early: bool, body: seq<Token>, i: nat) | Unmatched

  function Prepend(out: seq<Token>, g: Gathered): Gathered {
    if g.Unmatched? then g else g.(body := out + g.body)
  }

  function Level(t: Token, level: int): int {
    if t.kind == LeftBrace then level + 1 else if t.kind == RightBrace then level - 1 else level
  }

  /** Outermost braces are gathered only when they are preserved. */
  predicate Kept(t: Token, level: int, preserveBraces: bool) {
    if t.kind == LeftBrace then level != 0 || preserveBraces
    else if t.kind == RightBrace then level - 1 != 0 || preserveBraces
    else true
  }

  /** The tokens gathered after position `i`, at the given level of braces. */
  function Scan(tokens: seq<Token>, level: int, preserveBraces: bool, i: nat): Gathered
    decreases |tokens| - i
  {
    if i + 1 >= |tokens| || tokens[i].kind == EndOfFile then Unmatched
    else
      var t := tokens[i + 1];
      if t.kind == Nothing then Scan(tokens, level, preserveBraces, i + 1)
      else if level <= 0 && t.kind == SemiColon then Gathered(true, [], i + 1)
      else
        var out := if Kept(t, level, preserveBraces) then [t] else [];
        if Level(t, level) <= 0 then Gathered(false, out, i + 1)
        else Prepend(out, Scan(tokens, Level(t, level), preserveBraces, i + 1))
  }

  /** `GATHER_SCOPE_BODY` */
  method GatherScopeBody(tokens: seq<Token>, brLevel: int, i: nat, preserveBraces: bool) returns (g: Gathered)
    ensures g == if i + 1 >= |tokens| then Gathered(true, [], i) else Scan(tokens, brLevel, preserveBraces, i)
  {
    if i + 1 >= |tokens| {
      return Gathered(true, [], i);
    }
    var braceLevel, at, subTokens := brLevel, i, [];
    while true
      invariant Prepend(subTokens, Scan(tokens, braceLevel, preserveBraces, at)) == Scan(tokens, brLevel, preserveBraces, i)
      decreases |tokens| - at
    {
      if at + 1 >= |tokens| || tokens[at].kind == EndOfFile {
        return Unmatched;
      }
      at := at + 1;
      var t := tokens[at];
      PrependTwice(subTokens, [t], Scan(tokens, Level(t, braceLevel), preserveBraces, at));
      if t.kind == Nothing {
        continue;
      }
      if braceLevel <= 0 && t.kind == SemiColon {
        return Gathered(true, subTokens, at);
      }
      if t.kind == LeftBrace {
        if braceLevel != 0 || preserveBraces {
          subTokens := subTokens + [t];
        }
        braceLevel := braceLevel + 1;
      } else if t.kind == RightBrace {
        braceLevel := braceLevel - 1;
        if braceLevel != 0 || preserveBraces {
          subTokens := subTokens + [t];
        }
      } else {
        subTokens := subTokens + [t];
      }
      if braceLevel <= 0 {
        return Gathered(false, subTokens, at);
      }
    }
  }

  lemma PrependTwice(a: seq<Token>, b: seq<Token>, g: Gathered)
    ensures Prepend(a, Prepend(b, g)) == Prepend(a + b, g)
    ensures Prepend(a, Prepend([], g)) == Prepend(a, g)
  {
    assert g.Gathered? ==> a + (b + g.body) == a + b + g.body && [] + g.body == g.body;
  }

  // -------------------------------------------------------- the matching brace

  /** Braces open after `k`, when `level` were open after `i`. */
  function Depth(tokens: seq<Token>, level: int, i: nat, k: nat): int
    requires k < |tokens|
  {
    if k <= i then level else Level(tokens[k], Depth(tokens, level, i, k - 1))
  }

  /** At `j` the braces open after `i` are closed for the first time, with no end of file in between. */
  ghost predicate Matching(tokens: seq<Token>, level: int, i: nat, j: nat) {
    && i < j < |tokens| && Depth(tokens, level, i, j) <= 0
    && (forall k | i < k < j :: Depth(tokens, level, i, k) > 0)
    && (forall k | i <= k < j :: tokens[k].kind != EndOfFile)
  }

  function Meaningful(tokens: seq<Token>): seq<Token> {
    if tokens == [] then [] else (if tokens[0].kind == Nothing then [] else [tokens[0]]) + Meaningful(tokens[1..])
  }

  lemma {:induction false} DepthStep(tokens: seq<Token>, level: int, i: nat, k: nat)
    requires i < k < |tokens|
    ensures Depth(tokens, level, i, k) == Depth(tokens, Level(tokens[i + 1], level), i + 1, k)
    decreases k
  {
    if k > i + 1 {
      DepthStep(tokens, level, i, k - 1);
    } else {
      assert Depth(tokens, level, i, i) == level;
    }
  }

  lemma MatchingStep(tokens: seq<Token>, level: int, i: nat, j: nat)
    requires level > 0 && i + 1 < |tokens| && tokens[i].kind != EndOfFile
    ensures var next := Level(tokens[i + 1], level);
            Matching(tokens, level, i, j) <==> if next <= 0 then j == i + 1 else Matching(tokens, next, i + 1, j)
  {
    var next := Level(tokens[i + 1], level);
    forall k | i < k < |tokens|
      ensures Depth(tokens, level, i, k) == Depth(tokens, next, i + 1, k)
    {
      DepthStep(tokens, level, i, k);
    }
    assert Depth(tokens, next, i + 1, i + 1) == next;
    if j == i + 1 {
      assert Depth(tokens, level, i, j) == next;
    }
    if Matching(tokens, next, i + 1, j) && next > 0 {
      forall k | i < k < j
        ensures Depth(tokens, level, i, k) > 0
      {
        assert k == i + 1 || Depth(tokens, next, i + 1, k) > 0;
      }
    }
    if Matching(tokens, level, i, j) && j > i + 1 {
      assert Depth(tokens, level, i, i + 1) > 0;
      var first := i + 1;
      forall k | first < k < j
        ensures Depth(tokens, next, first, k) > 0
      {
        assert Depth(tokens, level, i, k) > 0;
      }
      assert Depth(tokens, next, i + 1, j) == Depth(tokens, level, i, j);
    }
  }

  lemma NoneMatches(tokens: seq<Token>, level: int, i: nat)
    requires i + 1 >= |tokens| || tokens[i].kind == EndOfFile
    ensures forall j :: !Matching(tokens, level, i, j)
  {
  }

  /**
   Within a scope, gathering stops exactly on the matching brace, with the
   meaningful tokens before it, and fails exactly when there is none.
   */
  lemma {:induction false} ScanFindsMatch(tokens: seq<Token>, level: int, i: nat)
    requires level > 0
    ensures var g := Scan(tokens, level, false, i);
            if g.Unmatched? then forall j :: !Matching(tokens, level, i, j)
            else !g.early && Matching(tokens, level, i, g.i) && g.body == Meaningful(tokens[i + 1..g.i])
    decreases |tokens| - i
  {
    if i + 1 < |tokens| && tokens[i].kind != EndOfFile {
      var t := tokens[i + 1];
      var next := Level(t, level);
      forall j: nat
        ensures Matching(tokens, level, i, j) <==> if next <= 0 then j == i + 1 else Matching(tokens, next, i + 1, j)
      {
        MatchingStep(tokens, level, i, j);
      }
      if next > 0 {
        ScanFindsMatch(tokens, next, i + 1);
        var g := Scan(tokens, next, false, i + 1);
        if g.Gathered? {
          assert tokens[i + 1..g.i] == [t] + tokens[i + 2..g.i];
        }
      }
    } else {
      NoneMatches(tokens, level, i);
    }
  }

  // ----------------------------------------------------------- gathering twice

  /** Preserving the outermost brace adds it at the end. */
  lemma {:induction false} ScanPreserving(tokens: seq<Token>, level: int, i: nat)
    requires level > 0
    ensures var g := Scan(tokens, level, false, i);
            if g.Unmatched? then Scan(tokens, level, true, i) == g
            else g.i < |tokens| && Scan(tokens, level, true, i) == g.(body := g.body + [tokens[g.i]]) && tokens[g.i].kind == RightBrace
    decreases |tokens| - i
  {
    if i + 1 < |tokens| && tokens[i].kind != EndOfFile {
      var t := tokens[i + 1];
      if Level(t, level) > 0 {
        ScanPreserving(tokens, Level(t, level), i + 1);
        var g := Scan(tokens, Level(t, level), false, i + 1);
        if g.Gathered? {
          assert [t] + (g.body + [tokens[g.i]]) == [t] + g.body + [tokens[g.i]];
        }
      }
    }
  }

  /** What was gathered, followed by its closing brace, is gathered again. */
  lemma {:induction false} ScanAgain(tokens: seq<Token>, level: int, i: nat, ts: seq<Token>, m: nat)
    requires level > 0 && Scan(tokens, level, false, i).Gathered? && Scan(tokens, level, false, i).i < |tokens|
    requires var g := Scan(tokens, level, false, i); m < |ts| && ts[m].kind != EndOfFile && ts[m + 1..] == g.body + [tokens[g.i]]
    ensures Scan(ts, level, false, m) == Gathered(false, Scan(tokens, level, false, i).body, |ts| - 1)
    decreases |tokens| - i
  {
    var t := tokens[i + 1];
    var g := Scan(tokens, level, false, i);
    assert |ts| - m - 1 == |g.body| + 1;
    if t.kind == Nothing {
      ScanAgain(tokens, level, i + 1, ts, m);
    } else if Level(t, level) <= 0 {
      assert ts[m + 1..] == [t];
      assert ts[m + 1] == ts[m + 1..][0];
    } else {
      var h := Scan(tokens, Level(t, level), false, i + 1);
      assert g.body == [t] + h.body;
      assert ts[m + 1] == ts[m + 1..][0] == t;
      assert ts[m + 2..] == ts[m + 1..][1..] == h.body + [tokens[h.i]];
      ScanAgain(tokens, Level(t, level), i + 1, ts, m + 1);
    }
  }

  lemma {:induction false} ScanSkips(tokens: seq<Token>, level: int, preserveBraces: bool, i: nat, p: nat)
    requires i <= p < |tokens| && (forall k | i < k <= p :: tokens[k].kind == Nothing) && tokens[i].kind != EndOfFile
    ensures Scan(tokens, level, preserveBraces, i) == Scan(tokens, level, preserveBraces, p)
    decreases p - i
  {
    if i < p {
      ScanSkips(tokens, level, preserveBraces, i + 1, p);
    }
  }

  /**
   Gathered with its braces from outside, a scope holds the same tokens when
   it is gathered again from within as it does in place.
   */
  lemma GatherTwice(tokens: seq<Token>, i: nat, p: nat)
    requires i < p < |tokens| && tokens[p].kind == LeftBrace && tokens[i].kind != EndOfFile
    requires forall k | i < k < p :: tokens[k].kind == Nothing
    ensures var inner, outer := Scan(tokens, 1, false, p), Scan(tokens, 0, true, i);
            if inner.Unmatched? then outer == Unmatched
            else outer.Gathered? && outer == inner.(body := outer.body) && outer.body != [] && Scan(outer.body, 1, false, 0) == Gathered(false, inner.body, |outer.body| - 1)
  {
    ScanSkips(tokens, 0, true, i, p - 1);
    ScanPreserving(tokens, 1, p);
    var inner := Scan(tokens, 1, false, p);
    if inner.Gathered? {
      var outer := [tokens[p]] + (inner.body + [tokens[inner.i]]);
      assert outer[1..] == inner.body + [tokens[inner.i]];
      ScanAgain(tokens, 1, p, outer, 0);
    }
  }
}
