/**
 What names and numbers are, character by character (pkg/jsonpath/lexer.go). The definitions here are written
 out once more and not used by the lexer.
 */
module JsonTokens {
  import opened Changes
  import opened JsonPath
  import opened JsonPathPrinter

  // ----- Names -----

  /** Within ASCII: letters, the underscore and the dollar sign. */
  predicate MayStart(out: Outside, c: char) {
    || 'a' <= c <= 'z' || 'A' <= c <= 'Z' || c == '_' || c == '$'
    || ('\U{0080}' <= c && out.start(c))
  }

  /** Within ASCII: these and the digits; beyond, two invisible joiners in any case. */
  predicate MayContinue(out: Outside, c: char) {
    || 'a' <= c <= 'z' || 'A' <= c <= 'Z' || c == '_' || c == '$' || '0' <= c <= '9'
    || c == '\U{200C}' || c == '\U{200D}'
    || ('\U{0080}' <= c && out.part(c))
  }

  predicate NameText(out: Outside, s: string) {
    s != "" && MayStart(out, s[0]) && forall i | 1 <= i < |s| :: MayContinue(out, s[i])
  }

  lemma IdentifierIs(out: Outside, s: string)
    ensures IsIdentifier(out, s) <==> NameText(out, s)
  {
  }

  /** A text is one name exactly if its characters are such. */
  lemma NamesAre(out: Outside, s: string)
    ensures Lex(out, s).0 == Identifier(s) <==> NameText(out, s)
  {
    IdentifierIs(out, s);
    if NameText(out, s) {
      LexIdentifier(out, s, "");
      assert s + "" == s;
    }
    if Lex(out, s).0 == Identifier(s) {
      LexIsMaximal(out, s);
    }
  }

  /** Each of them selects a member. */
  lemma NamesParse(out: Outside, name: string)
    requires NameText(out, name)
    ensures ParseTop(out, "$." + name) == Some([Name(name)])
  {
    hide Lex;
    IdentifierIs(out, name);
    IdentifierIs(out, "$");
    assert "$." + name == "$" + ("." + name);
    LexIdentifier(out, "$", "." + name);
    LexDot(out, name);
    LexIdentifier(out, name, "");
    assert name + "" == name;
    assert ParseOne(out, "." + name, false) == Some((Name(name), ""));
    assert ParseAll(out, "", false) == Some([]) && [Name(name)] + [] == [Name(name)];
  }

  // ----- Numbers -----

  function DigitValue(c: char): nat
    requires '0' <= c <= '9'
  {
    c as int - 48
  }

  /** A digit is a number. */
  lemma DigitsAre(out: Outside, c: char)
    requires '0' <= c <= '9'
    ensures Lex(out, [c]) == (Number(DigitValue(c)), "")
  {
    NumberEndsAt([c], 1, 1, if c == '0' then Undecided else Decimal);
    assert [c][..1] == [c] && [c][..0] == "";
    assert Value([c]) == 10 * Value("") + DigitValue(c);
  }

  /** A digit after a number makes it ten times as large and adds its value; what needs more than 64 bits is bad. */
  lemma OneMoreDigit(out: Outside, s: string, n: Int64, c: char)
    requires Lex(out, s) == (Number(n), "") && '0' <= c <= '9'
    ensures var more := 10 * n + DigitValue(c);
            Lex(out, s + [c]) == if more <= 9223372036854775807 then (Number(more), "") else (Bad, "")
  {
    var t := s + [c];
    LexIsMaximal(out, s);
    assert s[..|s|] == s;
    assert t[..|t| - 1] == s;
    NumberEndsAt(t, 1, |t|, if t[0] == '0' then Undecided else Decimal);
    assert t[0] == s[0] && t[..|t|] == t;
    assert Value(t) == 10 * Value(s) + DigitValue(c);
  }

  /** Nothing but digits is a number. */
  lemma NumbersAreDigits(out: Outside, s: string, n: Int64)
    requires Lex(out, s) == (Number(n), "")
    ensures s != "" && forall i | 0 <= i < |s| :: '0' <= s[i] <= '9'
  {
    LexIsMaximal(out, s);
    assert s[..|s|] == s;
  }
}
