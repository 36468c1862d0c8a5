/** What opens and ends comments, by the texts of the tokens, and what that makes code. */
module CommentRules {
  import opened Tokenizer
  import opened Comments

  predicate StartsWith(t: Token, two: string) {
    |t.text| >= 2 && t.text[..2] == two
  }

  /** What opens and ends comments, by the texts of the tokens. */
  lemma Delimiters(t: Token)
    ensures Opens(t) <==> StartsWith(t, "//") || StartsWith(t, "/*")
    ensures OpensBlock(t) <==> StartsWith(t, "/*")
    ensures Ends(t, true) <==> StartsWith(t, "*/")
    ensures Ends(t, false) <==> t.kind == EndOfLine
  {
    if |t.text| >= 2 {
      assert t.text[..2] == [t.text[0], t.text[1]];
      assert "//"[0] == '/' && "//"[1] == '/' && "/*"[1] == '*' && "*/"[0] == '*' && "*/"[1] == '/';
    }
  }

  lemma {:induction false} EndFound(ts: seq<Token>, block: bool, j: nat, n: nat)
    requires j <= n < |ts| && Ends(ts[n], block) && forall k | j <= k < n :: !Ends(ts[k], block)
    ensures EndOf(ts, block, j) == n
    decreases n - j
  {
    if j < n {
      EndFound(ts, block, j + 1, n);
    }
  }

  /** A comment from two slashes to the end of the line is no code; the end of the line is. */
  lemma LineIsNoCode(open: Token, inside: seq<Token>, last: Token, rest: seq<Token>)
    requires StartsWith(open, "//") && last.kind == EndOfLine && forall t | t in inside :: t.kind != EndOfLine
    ensures Code([open] + inside + [last] + rest) == [last] + Code(rest)
  {
    var ts, n := [open] + inside + [last] + rest, |inside| + 1;
    Delimiters(open);
    assert "//"[1] != "/*"[1];
    assert !OpensBlock(open);
    assert forall k | 1 <= k < n :: ts[k] == inside[k - 1];
    assert ts[n] == last && ts[n + 1..] == rest;
    EndFound(ts, false, 1, n);
  }

  /** A block comment up to the next token that begins with the closing pair is no code. */
  lemma BlockIsNoCode(open: Token, inside: seq<Token>, last: Token, rest: seq<Token>)
    requires StartsWith(open, "/*") && StartsWith(last, "*/") && forall t | t in inside :: !StartsWith(t, "*/")
    ensures Code([open] + inside + [last] + rest) == Code(rest)
  {
    var ts, n := [open] + inside + [last] + rest, |inside| + 1;
    Delimiters(open);
    Delimiters(last);
    forall k | 1 <= k < n
      ensures !Ends(ts[k], true)
    {
      Delimiters(ts[k]);
      assert ts[k] == inside[k - 1];
    }
    assert ts[n] == last && ts[n + 1..] == rest;
    EndFound(ts, true, 1, n);
  }

  /** Everything else is code. */
  lemma OtherIsCode(t: Token, rest: seq<Token>)
    requires !StartsWith(t, "//") && !StartsWith(t, "/*")
    ensures Code([t] + rest) == [t] + Code(rest) && Code([]) == []
  {
    Delimiters(t);
    assert ([t] + rest)[1..] == rest;
  }
}
