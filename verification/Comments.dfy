/** Comments: joining the tokens of each into one, and removing them. */
module Comments {
  import opened Tokenizer

  predicate Begins(t: Token, a: char, b: char) {
    |t.text| >= 2 && t.text[0] == a && t.text[1] == b
  }

  predicate OpensBlock(t: Token) {
    Begins(t, '/', '*')
  }

  predicate Opens(t: Token) {
    Begins(t, '/', '/') || OpensBlock(t)
  }

  /** A block comment ends with its closing token, a line comment with the end of the line. */
  predicate Ends(t: Token, block: bool) {
    if block then Begins(t, '*', '/') else t.kind == EndOfLine
  }

  /** The first token that ends the comment, from `j` on; `|ts|` when there is none. */
  function EndOf(ts: seq<Token>, block: bool, j: nat): (n: nat)
    requires j <= |ts|
    ensures j <= n <= |ts| && (n < |ts| ==> Ends(ts[n], block)) && forall k | j <= k < n :: !Ends(ts[k], block)
    decreases |ts| - j
  {
    if j == |ts| || Ends(ts[j], block) then j else EndOf(ts, block, j + 1)
  }

  // ------------------------------------------------------------ what is meant

  /** The tokens outside comments; the end of a line is no part of its comment. */
  function Code(ts: seq<Token>): seq<Token> {
    if ts == [] then []
    else if !Opens(ts[0]) then [ts[0]] + Code(ts[1..])
    else
      var n := EndOf(ts, OpensBlock(ts[0]), 1);
      if n == |ts| then []
      else if OpensBlock(ts[0]) then Code(ts[n + 1..])
      else [ts[n]] + Code(ts[n + 1..])
  }

  // ------------------------------------------------------------- what is done

  /** The texts of the first `n` tokens, a blank after each. */
  function TextOf(ts: seq<Token>, n: nat): string
    requires n <= |ts|
  {
    if n == 0 then "" else TextOf(ts, n - 1) + ts[n - 1].text + " "
  }

  /** The text of a comment that `last` ends; of an end of line one character too many is cut off. */
  function CommentText(s: string, last: Token): string {
    if last.kind == EndOfLine && |s| >= 4 then s[..|s| - 4] else s
  }

  function Marked(t: Token): Token {
    t.(kind := Comment)
  }

  /** The tokens after joining: what follows a block comment is passed over. */
  function Joined(ts: seq<Token>): seq<Token> {
    if ts == [] then []
    else if !Opens(ts[0]) then [ts[0]] + Joined(ts[1..])
    else
      var n := EndOf(ts, OpensBlock(ts[0]), 1);
      if n == |ts| then [Marked(ts[0])] + ts[1..]
      else
        var comment := Marked(ts[0]).(text := CommentText(TextOf(ts, n + 1), ts[n]));
        if !OpensBlock(ts[0]) then [comment, ts[n]] + Joined(ts[n + 1..])
        else if n + 1 == |ts| then [comment]
        else [comment, ts[n + 1]] + Joined(ts[n + 2..])
  }

  function WithoutComments(ts: seq<Token>): seq<Token> {
    if ts == [] then []
    else (if ts[0].kind == Comment then [] else [ts[0]]) + WithoutComments(ts[1..])
  }

  class TokenVector {
    var tokens: seq<Token>

    constructor (ts: seq<Token>)
      ensures tokens == ts
    {
      tokens := ts;
    }

    /** `joinCommentTokens`: puts a dummy token in front and joins comments in place. */
    method JoinCommentTokens()
      modifies this
      ensures tokens == [Token("", Nothing, 0, 0)] + Joined(old(tokens))
    {
      ghost var whole := [Token("", Nothing, 0, 0)] + Joined(tokens);
      tokens := [Token("", Nothing, 0, 0)] + tokens;
      assert tokens[1..] == old(tokens);
      var i, startIndex := 0, 0;
      var inComment, multiLineComment := false, false;
      var newTokenContents := "";
      ghost var before, ts: seq<Token> := [], [];
      AllBefore(tokens, whole);
      while i < |tokens| - 1
        invariant i <= |tokens|
        invariant !inComment ==> OutsideComment(tokens, i, whole) == true
        invariant inComment ==> startIndex == |before| && InsideComment(tokens, i, whole, before, ts, multiLineComment, newTokenContents) == true
        invariant !inComment ==> !multiLineComment
        decreases |tokens| - i
      {
        i := i + 1;
        var t := tokens[i];
        if !inComment {
          if Opens(t) {
            inComment, multiLineComment := true, OpensBlock(t);
            startIndex := i;
            before, ts := tokens[..i], tokens[i..];
            newTokenContents := t.text + " ";
            CommentOpened(tokens, i, whole);
            tokens := tokens[startIndex := Marked(t)];
          } else {
            Passed(tokens, i, whole);
          }
        } else {
          ghost var was := newTokenContents;
          newTokenContents := newTokenContents + t.text + " ";
          if !Ends(t, multiLineComment) {
            StillInside(tokens, i, whole, before, ts, multiLineComment, was, newTokenContents);
            continue;
          }
          ghost var at, block := i, multiLineComment;
          if multiLineComment {
            i := i + 1;
          }
          newTokenContents := CommentText(newTokenContents, t);
          CommentJoined(tokens, at, whole, before, ts, block, was, newTokenContents, startIndex, i);
          inComment, multiLineComment := false, false;
          tokens := tokens[startIndex := tokens[startIndex].(text := newTokenContents)];
          tokens := tokens[..startIndex + 1] + tokens[i..];
          i := startIndex + 1;
        }
      }
      if inComment {
        Unended(tokens, whole, before, ts, multiLineComment, newTokenContents);
      } else {
        AllDone(tokens, i, whole);
      }
    }

    /** `removeCommentTokens`: erases the comments after the first token, stepping back at each. */
    method RemoveCommentTokens()
      requires tokens != []
      modifies this
      ensures tokens == [old(tokens[0])] + WithoutComments(old(tokens[1..]))
    {
      ghost var whole := [tokens[0]] + WithoutComments(tokens[1..]);
      var i := 0;
      assert tokens[..1] == [tokens[0]];
      while i < |tokens| - 1
        invariant i < |tokens| && Cleaned(tokens, i + 1) == whole
        decreases |tokens| - i
      {
        i := i + 1;
        CleanedStep(tokens, i);
        if tokens[i].kind == Comment {
          tokens := tokens[..i] + tokens[i + 1..];
          i := i - 1;
        }
      }
      assert Cleaned(tokens, |tokens|) == tokens;
    }
  }

  /** With the comments from `k` on removed. */
  function Cleaned(tokens: seq<Token>, k: nat): seq<Token>
    requires k <= |tokens|
  {
    tokens[..k] + WithoutComments(tokens[k..])
  }

  lemma CleanedStep(tokens: seq<Token>, i: nat)
    requires i < |tokens|
    ensures Cleaned(tokens, i) == if tokens[i].kind == Comment then Cleaned(tokens[..i] + tokens[i + 1..], i) else Cleaned(tokens, i + 1)
  {
    var before, t, after := tokens[..i], tokens[i], tokens[i + 1..];
    assert tokens[i..][0] == t && tokens[i..][1..] == after;
    assert (before + after)[..i] == before && (before + after)[i..] == after;
    assert tokens[..i + 1] == before + [t];
    assert before + ([t] + WithoutComments(after)) == before + [t] + WithoutComments(after);
  }

  /** Outside comments: the tokens up to `i` are done. */
  ghost predicate OutsideComment(tokens: seq<Token>, i: nat, whole: seq<Token>) {
    && i <= |tokens|
    && if i < |tokens| then tokens[..i + 1] + Joined(tokens[i + 1..]) == whole else tokens == whole
  }

  /** At `i`, within the comment that the first of `ts` began. */
  ghost predicate InsideComment(tokens: seq<Token>, i: nat, whole: seq<Token>, before: seq<Token>, ts: seq<Token>, block: bool, text: string) {
    && ts != [] && Opens(ts[0]) && block == OpensBlock(ts[0])
    && tokens == before + [Marked(ts[0])] + ts[1..] && whole == before + Joined(ts)
    && |before| <= i < |tokens|
    && (forall k | 0 < k <= i - |before| :: !Ends(ts[k], block))
    && text == TextOf(ts, i - |before| + 1)
  }

  lemma AllBefore(tokens: seq<Token>, whole: seq<Token>)
    requires tokens != [] && whole == [tokens[0]] + Joined(tokens[1..])
    ensures OutsideComment(tokens, 0, whole)
  {
    assert tokens[..1] == [tokens[0]];
  }

  lemma AllDone(tokens: seq<Token>, i: nat, whole: seq<Token>)
    requires |tokens| <= i + 1 && OutsideComment(tokens, i, whole)
    ensures tokens == whole
  {
    if i < |tokens| {
      assert tokens[..i + 1] + Joined(tokens[i + 1..]) == tokens;
    }
  }

  lemma Passed(tokens: seq<Token>, i: nat, whole: seq<Token>)
    requires 0 < i < |tokens| && OutsideComment(tokens, i - 1, whole) && !Opens(tokens[i])
    ensures OutsideComment(tokens, i, whole)
  {
    assert tokens[i..][1..] == tokens[i + 1..];
    assert tokens[..i] + ([tokens[i]] + Joined(tokens[i + 1..])) == tokens[..i + 1] + Joined(tokens[i + 1..]);
  }

  lemma CommentOpened(tokens: seq<Token>, i: nat, whole: seq<Token>)
    requires 0 < i < |tokens| && OutsideComment(tokens, i - 1, whole) && Opens(tokens[i])
    ensures InsideComment(tokens[i := Marked(tokens[i])], i, whole, tokens[..i], tokens[i..], OpensBlock(tokens[i]), tokens[i].text + " ")
  {
    var ts := tokens[i..];
    assert TextOf(ts, 1) == TextOf(ts, 0) + ts[0].text + " " == ts[0].text + " ";
  }

  lemma StillInside(tokens: seq<Token>, i: nat, whole: seq<Token>, before: seq<Token>, ts: seq<Token>, block: bool, was: string, text: string)
    requires 0 < i < |tokens| && InsideComment(tokens, i - 1, whole, before, ts, block, was) && text == was + tokens[i].text + " " && !Ends(tokens[i], block)
    ensures InsideComment(tokens, i, whole, before, ts, block, text)
  {
    assert ts[i - |before|] == tokens[i];
  }

  lemma {:induction false} EndIs(ts: seq<Token>, block: bool, j: nat, n: nat)
    requires j <= n <= |ts| && (n < |ts| ==> Ends(ts[n], block)) && forall k | j <= k < n :: !Ends(ts[k], block)
    ensures EndOf(ts, block, j) == n
  {
  }

  /** A closed comment is joined, and in a block comment's case the token after it is passed over. */
  lemma CommentClosed(tokens: seq<Token>, i: nat, whole: seq<Token>, before: seq<Token>, ts: seq<Token>, block: bool, was: string, text: string, j: nat)
    requires 0 < i < |tokens| && InsideComment(tokens, i - 1, whole, before, ts, block, was) && text == was + tokens[i].text + " " && Ends(tokens[i], block)
    requires j == if block then i + 1 else i
    ensures OutsideComment(tokens[..|before|] + [Marked(ts[0]).(text := CommentText(text, tokens[i]))] + tokens[j..], |before| + 1, whole)
    ensures tokens[|before|] == Marked(ts[0])
  {
    var n := i - |before|;
    var comment := Marked(ts[0]).(text := CommentText(text, tokens[i]));
    Aligned(tokens, before, Marked(ts[0]), ts, i);
    Aligned(tokens, before, Marked(ts[0]), ts, j);
    JoinedComment(ts, n, text);
    Replaced(before, comment, ts, j - |before|);
  }

  lemma Aligned(tokens: seq<Token>, before: seq<Token>, first: Token, ts: seq<Token>, j: nat)
    requires ts != [] && tokens == before + [first] + ts[1..] && |before| < j <= |tokens|
    ensures tokens[..|before|] == before && tokens[|before|] == first
    ensures tokens[j..] == ts[j - |before|..] && (j < |tokens| ==> tokens[j] == ts[j - |before|])
  {
  }

  /** ... as the vector is rewritten in place. */
  lemma CommentJoined(tokens: seq<Token>, i: nat, whole: seq<Token>, before: seq<Token>, ts: seq<Token>, block: bool, was: string, text: string, start: nat, j: nat)
    requires 0 < i < |tokens| && InsideComment(tokens, i - 1, whole, before, ts, block, was) && Ends(tokens[i], block)
    requires start == |before| && text == CommentText(was + tokens[i].text + " ", tokens[i]) && j == if block then i + 1 else i
    ensures start < i && j <= |tokens|
    ensures var now := tokens[start := tokens[start].(text := text)];
            OutsideComment(now[..start + 1] + now[j..], start + 1, whole)
  {
    CommentClosed(tokens, i, whole, before, ts, block, was, was + tokens[i].text + " ", j);
    Spliced(tokens, start, Marked(ts[0]).(text := text), j);
  }

  lemma JoinedComment(ts: seq<Token>, n: nat, text: string)
    requires 0 < n < |ts| && Opens(ts[0]) && Ends(ts[n], OpensBlock(ts[0])) && forall k | 0 < k < n :: !Ends(ts[k], OpensBlock(ts[0]))
    requires text == TextOf(ts, n + 1)
    ensures var comment, next := Marked(ts[0]).(text := CommentText(text, ts[n])), if OpensBlock(ts[0]) then n + 1 else n;
            Joined(ts) == if next < |ts| then [comment, ts[next]] + Joined(ts[next + 1..]) else [comment]
  {
    EndIs(ts, OpensBlock(ts[0]), 1, n);
  }

  /** `comment` and what follows from `next` on, in place of all of `ts`. */
  lemma Replaced(before: seq<Token>, comment: Token, ts: seq<Token>, next: nat)
    requires 0 < next <= |ts|
    ensures OutsideComment(before + [comment] + ts[next..], |before| + 1,
              before + if next < |ts| then [comment, ts[next]] + Joined(ts[next + 1..]) else [comment])
  {
    var r := before + [comment] + ts[next..];
    if next < |ts| {
      assert r == before + [comment, ts[next]] + ts[next + 1..];
      CutOff(before, [comment, ts[next]], ts[next + 1..]);
    } else {
      assert r == before + [comment];
    }
  }

  lemma Spliced(tokens: seq<Token>, start: nat, t: Token, j: nat)
    requires start < j <= |tokens|
    ensures tokens[start := t][..start + 1] + tokens[start := t][j..] == tokens[..start] + [t] + tokens[j..]
  {
  }

  lemma CutOff(a: seq<Token>, b: seq<Token>, c: seq<Token>)
    ensures (a + b + c)[..|a| + |b|] == a + b && (a + b + c)[|a| + |b|..] == c
    ensures a + b + Joined(c) == a + (b + Joined(c))
  {
  }

  lemma Unended(tokens: seq<Token>, whole: seq<Token>, before: seq<Token>, ts: seq<Token>, block: bool, text: string)
    requires tokens != [] && InsideComment(tokens, |tokens| - 1, whole, before, ts, block, text)
    ensures tokens == whole
  {
    EndIs(ts, block, 1, |ts|);
    assert tokens == before + ([Marked(ts[0])] + ts[1..]);
  }

  // ------------------------------------------------------ done against meant

  /** Every comment ends, unless its opening token is the last, and no comment begins right after a block comment. */
  predicate Clean(ts: seq<Token>) {
    if ts == [] then true
    else if !Opens(ts[0]) then Clean(ts[1..])
    else
      var n := EndOf(ts, OpensBlock(ts[0]), 1);
      if n == |ts| then n == 1
      else if !OpensBlock(ts[0]) then Clean(ts[n + 1..])
      else n + 1 == |ts| || (!Opens(ts[n + 1]) && Clean(ts[n + 2..]))
  }

  /** No comments yet, and ends of lines begin none. */
  predicate Fresh(ts: seq<Token>) {
    forall i | 0 <= i < |ts| :: ts[i].kind != Comment && (ts[i].kind == EndOfLine ==> !Opens(ts[i]))
  }

  lemma {:induction false} NothingToRemove(ts: seq<Token>)
    requires Fresh(ts)
    ensures WithoutComments(ts) == ts
    decreases |ts|
  {
    if ts != [] {
      NothingToRemove(ts[1..]);
    }
  }

  lemma RemoveFirst(comment: Token, rest: seq<Token>)
    requires comment.kind == Comment
    ensures WithoutComments([comment] + rest) == WithoutComments(rest)
  {
    assert ([comment] + rest)[1..] == rest;
  }

  lemma KeepFirst(t: Token, rest: seq<Token>)
    requires t.kind != Comment
    ensures WithoutComments([t] + rest) == [t] + WithoutComments(rest)
  {
    assert ([t] + rest)[1..] == rest;
  }

  lemma CommentThenToken(comment: Token, t: Token, rest: seq<Token>)
    requires comment.kind == Comment && t.kind != Comment
    ensures WithoutComments([comment, t] + rest) == [t] + WithoutComments(rest)
  {
    RemoveFirst(comment, [t] + rest);
    KeepFirst(t, rest);
    assert [comment, t] + rest == [comment] + ([t] + rest);
  }

  /** No token outside comments opens one. */
  lemma {:induction false} CodeOpensNothing(ts: seq<Token>)
    requires Fresh(ts)
    ensures forall i | 0 <= i < |Code(ts)| :: !Opens(Code(ts)[i])
    decreases |ts|
  {
    if ts != [] {
      if !Opens(ts[0]) {
        CodeOpensNothing(ts[1..]);
      } else {
        var n := EndOf(ts, OpensBlock(ts[0]), 1);
        if n < |ts| {
          CodeOpensNothing(ts[n + 1..]);
        }
      }
    }
  }

  lemma SameFirst(t: Token, a: seq<Token>, b: seq<Token>)
    ensures [t] + a == [t] + b <==> a == b
  {
    assert ([t] + a)[1..] == a && ([t] + b)[1..] == b;
  }

  /**
   Joining and then removing comments leaves exactly the tokens outside
   comments, if and only if the tokens are clean.
   */
  lemma {:induction false} CommentsRemoved(ts: seq<Token>)
    requires Fresh(ts)
    ensures WithoutComments(Joined(ts)) == Code(ts) <==> Clean(ts)
    decreases |ts|
  {
    if ts == [] {
    } else if !Opens(ts[0]) {
      CommentsRemoved(ts[1..]);
      KeepFirst(ts[0], Joined(ts[1..]));
      SameFirst(ts[0], WithoutComments(Joined(ts[1..])), Code(ts[1..]));
    } else {
      var n := EndOf(ts, OpensBlock(ts[0]), 1);
      if n == |ts| {
        RemoveFirst(Marked(ts[0]), ts[1..]);
        NothingToRemove(ts[1..]);
      } else {
        var comment := Marked(ts[0]).(text := CommentText(TextOf(ts, n + 1), ts[n]));
        if OpensBlock(ts[0]) {
          BlockRemoved(ts, n, comment);
        } else {
          CommentsRemoved(ts[n + 1..]);
          CommentThenToken(comment, ts[n], Joined(ts[n + 1..]));
          SameFirst(ts[n], WithoutComments(Joined(ts[n + 1..])), Code(ts[n + 1..]));
        }
      }
    }
  }

  lemma {:induction false} BlockRemoved(ts: seq<Token>, n: nat, comment: Token)
    requires Fresh(ts) && 0 < n < |ts| && OpensBlock(ts[0]) && n == EndOf(ts, true, 1)
    requires comment == Marked(ts[0]).(text := CommentText(TextOf(ts, n + 1), ts[n]))
    ensures WithoutComments(Joined(ts)) == Code(ts) <==> Clean(ts)
    decreases |ts|, 0
  {
    if n + 1 == |ts| {
      RemoveFirst(comment, []);
      assert [comment] + [] == [comment] && ts[n + 1..] == [];
    } else {
      var t, rest := ts[n + 1], ts[n + 2..];
      CommentThenToken(comment, t, Joined(rest));
      assert ts[n + 1..][0] == t && ts[n + 1..][1..] == rest;
      if Opens(t) {
        CodeOpensNothing(ts);
        assert (WithoutComments(Joined(ts)))[0] == t;
      } else {
        CommentsRemoved(rest);
        SameFirst(t, WithoutComments(Joined(rest)), Code(rest));
      }
    }
  }

  /** Ended by a newline, a line comment loses the last character of its text and the blank after it. */
  lemma CommentLosesCharacter(ts: seq<Token>, n: nat)
    requires 0 < n < |ts| && ts[n].kind == EndOfLine && ts[n].text == "\n" && |TextOf(ts, n)| >= 2
    ensures CommentText(TextOf(ts, n + 1), ts[n]) == TextOf(ts, n)[..|TextOf(ts, n)| - 2]
  {
    assert TextOf(ts, n + 1) == TextOf(ts, n) + "\n" + " ";
  }
}
