/** The tables that make the tokenizer read the language. */
module LanguageTables {
  import opened Tokenizer
  import opened TokenizerText

  const Small := "abcdefghijklmnopqrstuvwxyz"
  const Capital := "ABCDEFGHIJKLMNOPQRSTUVWXYZ"
  const Letters := Small + Capital + "_"
  const Digits := "0123456789"
  const Symbols := " ,/;()+=-\\|<>?:!@#$%^&*{}[]\"'"
  const Blanks := "\n\t\r"

  /** The tables of the language. */
  const Standard := Tables(
    [ (Nothing, " \t"), (EndOfLine, "\n"), (Identifier, Letters), (Integer, Digits),
      (String, "\""), (Character, "'"), (Punctuation, ".,/;()+=-\\|<>?:!@#$%^&*{}[]`~") ],
    map[
      EndOfLine := Symbols + Letters + Digits + "." + Blanks,
      Identifier := Symbols + "." + Blanks,
      Integer := Symbols + Blanks,
      String := "\"",
      Character := "'",
      Punctuation := Symbols + Letters + Digits + "." + Blanks ],
    [ ("+-*:^|!&~<>=", "="), ("+-", "+-"), ("-", ">"), ("/", "/*"), ("*", "*/"), (":", ":"), (".", "."), ("|", "|"),
      ("&", "&"), ("~", "~"), ("^", "^"), ("%", "%"), ("@", "@"), ("!", "!"), ("[", "]") ],
    map[Integer := ('.', '.')])

  lemma StandardTables()
    ensures LineTables(Standard)
  {
    forall c
      ensures (Standard.Start(c) == EndOfLine <==> c == '\n') && Open(Standard.Start(c))
    {
      StartsOf(c);
    }
    forall raw: string, k, j: nat | 0 < j < |raw| && raw[j] == '\n' && Open(k) && k != Nothing
      ensures Standard.Stays(raw, k, j) <==> Quoted(k)
    {
      NoCancel(raw[j - 1]);
      InEscapes(k);
    }
  }

  lemma InEscapes(k: Kind)
    requires Open(k) && k != Nothing
    ensures k in Standard.escapes && ('\n' in Standard.escapes[k] <==> !Quoted(k))
    ensures k in Standard.forced ==> Standard.forced[k].0 == '.'
  {
    assert Blanks[0] == '\n';
    assert Standard.escapes.Keys == {EndOfLine, Identifier, Integer, String, Character, Punctuation};
    assert '\n' in Blanks;
  }

  lemma NoCancel(last: char)
    ensures !Standard.Cancelled(last, '\n')
  {
    var n := |Standard.cancels|;
    assert forall i | 0 <= i < 15 :: '\n' !in Standard.cancels[i].1;
  }

  lemma StartsOf(c: char)
    ensures Standard.Start(c) == EndOfLine <==> c == '\n'
    ensures Open(Standard.Start(c))
  {
    assert Standard.Start(c) == Standard.StartFrom(c, 0);
    assert Standard.StartFrom(c, 7) == Nothing;
    assert Standard.StartFrom(c, 6) == if c in Standard.starts[6].1 then Punctuation else Nothing;
    assert Standard.StartFrom(c, 5) == if c in Standard.starts[5].1 then Character else Standard.StartFrom(c, 6);
    assert Standard.StartFrom(c, 4) == if c in Standard.starts[4].1 then String else Standard.StartFrom(c, 5);
    assert Standard.StartFrom(c, 3) == if c in Standard.starts[3].1 then Integer else Standard.StartFrom(c, 4);
    assert Standard.StartFrom(c, 2) == if c in Standard.starts[2].1 then Identifier else Standard.StartFrom(c, 3);
    assert Standard.StartFrom(c, 1) == if c in Standard.starts[1].1 then EndOfLine else Standard.StartFrom(c, 2);
    assert Standard.StartFrom(c, 0) == if c in Standard.starts[0].1 then Nothing else Standard.StartFrom(c, 1);
  }
}
