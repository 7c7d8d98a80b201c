/**
 The grammar of the JSONPath expressions, without a reader: how a text is cut into tokens and which
 tokens spell which selectors. The parser accepts a text as a list of selectors exactly when the
 grammar derives them from it.
 */
module JsonPathGrammar {
  import opened Changes
  import opened JsonPath
  import opened JsonPathPrinter

  // ----- How a text is cut into tokens -----

  /** What is between the quotes: no closing quote, unless after a backslash. */
  predicate LiteralBody(b: string, close: char) {
    || b == ""
    || (b[0] != '\\' && b[0] != close && LiteralBody(b[1..], close))
    || (b[0] == '\\' && |b| >= 2 && LiteralBody(b[2..], close))
  }

  predicate QuotedLiteral(text: string) {
    && |text| >= 2 && (text[0] == '"' || text[0] == '\'') && text[|text| - 1] == text[0]
    && LiteralBody(text[1..|text| - 1], text[0])
  }

  /** `text` is the token, when `rest` follows it. */
  predicate TokenIs(out: Outside, tok: Token, text: string, rest: string) {
    match tok
    case Special(t) =>
      text == t && (t in ["[", "]", "*", ",", ":", ".."] || (t == "." && (rest == "" || rest[0] != '.')))
    case Identifier(name) => text == name && IsIdentifier(out, name) && (rest == "" || !IdentifierPart(out, rest[0]))
    case Number(num) => text != "" && AllDigits(text) && Value(text) == num && NumberMayEnd(text, rest)
    case StringToken(value) => QuotedLiteral(text) && out.literal(text) == Some(value)
    case _ => false
  }

  /** No digit follows a number, and after a lone zero nothing that would announce another base. */
  predicate NumberMayEnd(text: string, rest: string) {
    rest == "" || (!IsDigit(rest[0]) && (text == "0" ==> rest[0] != 'o' && rest[0] != 'x'))
  }

  /** The text begins with these tokens, and `rest` is what follows them. */
  ghost predicate Tokens(out: Outside, s: string, ts: seq<Token>, rest: string)
    decreases |ts|
  {
    if ts == [] then s == rest
    else exists n ::
        0 < n <= |s| && TokenIs(out, ts[0], s[..n], s[n..]) && Tokens(out, s[n..], ts[1..], rest)
  }

  // ----- Which tokens spell which selectors -----

  const OPEN: Token := Special("[")
  const CLOSE: Token := Special("]")
  const COMMA: Token := Special(",")
  const COLON: Token := Special(":")
  const STAR: Token := Special("*")
  const DOT: Token := Special(".")
  const DOT_DOT: Token := Special("..")

  predicate StrideSpelled(ts: seq<Token>, stride: Int64) {
    (stride == 1 && (ts == [CLOSE] || ts == [COLON, CLOSE])) || ts == [COLON, Number(stride), CLOSE]
  }

  predicate EndSpelled(ts: seq<Token>, end: Option<Int64>, stride: Int64) {
    match end
    case None => StrideSpelled(ts, stride)
    case Some(e) => ts != [] && ts[0] == Number(e) && StrideSpelled(ts[1..], stride)
  }

  predicate AllStrings(items: seq<Token>) {
    forall i | 0 <= i < |items| :: items[i].StringToken?
  }

  predicate AllNumbers(items: seq<Token>) {
    forall i | 0 <= i < |items| :: items[i].Number?
  }

  /** What a string or a number selects. */
  function ItemSelector(item: Token): Selector
    requires item.StringToken? || item.Number?
  {
    if item.StringToken? then Name(item.value) else Slice(RangeOf1(item.num))
  }

  function Selectors(items: seq<Token>): (l: seq<Selector>)
    requires AllStrings(items) || AllNumbers(items)
    ensures |l| == |items|
  {
    seq(|items|, i requires 0 <= i < |items| => ItemSelector(items[i]))
  }

  /** Items from the second on, each after a comma, and the end of the list. */
  function MoreTokens(items: seq<Token>): seq<Token> {
    if items == [] then [CLOSE] else [COMMA, items[0]] + MoreTokens(items[1..])
  }

  ghost predicate ListSpelled(ts: seq<Token>, sel: Selector) {
    exists items: seq<Token> ::
      && items != [] && (AllStrings(items) || AllNumbers(items))
      && ts == [items[0]] + MoreTokens(items[1..]) && sel == OneOrList(Selectors(items))
  }

  /** A range, after the opening bracket; no start is zero. */
  predicate RangeSpelled(ts: seq<Token>, range: Range) {
    || (ts != [] && ts[0] == COLON && range.start == 0 && EndSpelled(ts[1..], range.afterEnd, range.stride))
    || (|ts| >= 2 && ts[0] == Number(range.start) && ts[1] == COLON
        && EndSpelled(ts[2..], range.afterEnd, range.stride))
  }

  ghost predicate BracketSpelled(ts: seq<Token>, sel: Selector) {
    || (ts == [STAR, CLOSE] && sel == EveryChild)
    || (sel.Slice? && RangeSpelled(ts, sel.range))
    || ListSpelled(ts, sel)
  }

  predicate DotSpelled(tok: Token, sel: Selector) {
    || (tok == STAR && sel == EveryChild)
    || (tok.Identifier? && sel == Name(tok.name))
    || (tok.Number? && sel == Slice(RangeOf1(tok.num)))
  }

  /** One selector; a star stands alone only after two dots. */
  ghost predicate Spelled(ts: seq<Token>, sel: Selector, afterRecurse: bool) {
    || (ts == [DOT_DOT] && sel == Recurse)
    || (ts == [STAR] && sel == EveryChild && afterRecurse)
    || (|ts| == 2 && ts[0] == DOT && DotSpelled(ts[1], sel))
    || (ts != [] && ts[0] == OPEN && BracketSpelled(ts[1..], sel))
  }

  /** The tokens are those of the selectors, one after the other. */
  ghost predicate AllSpelled(ts: seq<Token>, p: Parsed, afterRecurse: bool)
    decreases |p|
  {
    if p == [] then ts == []
    else exists k ::
        0 <= k <= |ts| && Spelled(ts[..k], p[0], afterRecurse) && AllSpelled(ts[k..], p[1..], p[0].Recurse?)
  }

  /** The text is a dollar sign and then the selectors. */
  ghost predicate Derives(out: Outside, s: string, p: Parsed) {
    exists ts :: Tokens(out, s, [Identifier("$")] + ts, "") && AllSpelled(ts, p, false)
  }

  // ----- The lexer finds the tokens -----

  lemma {:induction false} StringEndIff(s: string, close: char, i: nat, n: nat)
    requires i <= |s| && close != '\\'
    ensures StringEnd(s, close, i) == Some(n) <==> i < n <= |s| && s[n - 1] == close && LiteralBody(s[i..n - 1], close)
    decreases |s| - i
  {
    if i < |s| && s[i] != close {
      var step := if s[i] == '\\' then 2 else 1;
      if i + step <= |s| {
        StringEndIff(s, close, i + step, n);
        if i < n <= |s| && i + step <= n - 1 {
          assert s[i..n - 1][step..] == s[i + step..n - 1];
        }
      }
    }
  }

  lemma {:induction false} NumberEndIs(s: string, i: nat, n: nat, base: Base)
    requires base == Undecided || base == Decimal
    requires i <= n <= |s| && forall j | i <= j < n :: IsDigit(s[j])
    requires n < |s| ==> !IsDigit(s[n]) && (i == n && base == Undecided ==> s[n] != 'o' && s[n] != 'x')
    ensures NumberEnd(s, i, base) == n
    decreases n - i
  {
    if i < n {
      NumberEndIs(s, i + 1, n, BaseAfter(base, s[i]));
    }
  }

  /** What the lexer leaves is the end of the text. */
  lemma LexLeaves(out: Outside, s: string)
    ensures var (tok, rest) := Lex(out, s);
            tok != EndOfText && tok != Bad ==> |rest| < |s| && s[|s| - |rest|..] == rest
  {
  }

  lemma LexedNumberIs(out: Outside, s: string, num: Int64, n: nat)
    requires 0 < n <= |s|
    ensures TokenIs(out, Number(num), s[..n], s[n..]) <==> Lex(out, s) == (Number(num), s[n..])
  {
    var text, rest := s[..n], s[n..];
    var base := if s[0] == '0' then Undecided else Decimal;
    if TokenIs(out, Number(num), text, rest) {
      assert s[0] == text[0] && IsDigit(s[0]);
      assert forall j | 0 <= j < n :: s[j] == text[j];
      assert n < |s| ==> s[n] == rest[0];
      assert n == 1 && s[0] == '0' ==> text == "0";
      NumberEndIs(s, 1, n, base);
    }
    if Lex(out, s) == (Number(num), rest) {
      NumberIsMaximal(out, s);
      assert NumberEnd(s, 1, base) == n by {
        assert s[NumberEnd(s, 1, base)..] == rest;
      }
      assert text == "0" ==> s[0] == '0' && n == 1;
    }
  }

  lemma LexedIdentifierIs(out: Outside, s: string, name: string, n: nat)
    requires 0 < n <= |s|
    ensures TokenIs(out, Identifier(name), s[..n], s[n..]) <==> Lex(out, s) == (Identifier(name), s[n..])
  {
    if TokenIs(out, Identifier(name), s[..n], s[n..]) {
      assert s == name + s[n..];
      LexIdentifier(out, name, s[n..]);
    }
    if Lex(out, s) == (Identifier(name), s[n..]) {
      IdentifierIsMaximal(out, s);
      assert |name| == n;
    }
  }

  lemma LexedStringIs(out: Outside, s: string, value: string, n: nat)
    requires 0 < n <= |s|
    ensures TokenIs(out, StringToken(value), s[..n], s[n..]) <==> Lex(out, s) == (StringToken(value), s[n..])
  {
    var text := s[..n];
    if s[0] == '"' || s[0] == '\'' {
      if n >= 2 {
        StringEndIff(s, s[0], 1, n);
        assert text[1..n - 1] == s[1..n - 1] && text[0] == s[0] && text[n - 1] == s[n - 1];
      }
      if Lex(out, s) == (StringToken(value), s[n..]) {
        assert s[StringEnd(s, s[0], 1).value..] == s[n..];
      }
    } else {
      assert text[0] == s[0];
    }
  }

  lemma LexedSpecialIs(out: Outside, s: string, t: string, n: nat)
    requires 0 < n <= |s|
    ensures TokenIs(out, Special(t), s[..n], s[n..]) <==> Lex(out, s) == (Special(t), s[n..])
  {
    var text, rest := s[..n], s[n..];
    if TokenIs(out, Special(t), text, rest) {
      assert s == t + rest;
      if t == "." {
        LexDot(out, rest);
      } else if t == ".." {
        LexDotDot(out, rest);
      } else {
        LexSpecial(out, t[0], rest);
        assert t == [t[0]];
      }
    }
    if Lex(out, s) == (Special(t), rest) {
      LexIsMaximal(out, s);
      assert text == t;
      if s[0] in "[]*,:" {
        assert t == "[" || t == "]" || t == "*" || t == "," || t == ":";
      }
    }
  }

  /** The lexer returns a token exactly where there is one. */
  lemma LexedIs(out: Outside, s: string, tok: Token, n: nat)
    requires 0 < n <= |s| && tok != EndOfText && tok != Bad
    ensures TokenIs(out, tok, s[..n], s[n..]) <==> Lex(out, s) == (tok, s[n..])
  {
    hide TokenIs, Lex;
    match tok {
      case Special(t) => LexedSpecialIs(out, s, t, n);
      case StringToken(value) => LexedStringIs(out, s, value, n);
      case Identifier(name) => LexedIdentifierIs(out, s, name, n);
      case Number(num) => LexedNumberIs(out, s, num, n);
    }
  }

  /** One token more, as the lexer goes. */
  lemma TokensStep(out: Outside, s: string, ts: seq<Token>, rest: string)
    requires ts != []
    ensures Tokens(out, s, ts, rest) <==>
            && ts[0] != EndOfText && ts[0] != Bad
            && Lex(out, s).0 == ts[0] && Tokens(out, Lex(out, s).1, ts[1..], rest)
  {
    hide Lex;
    if Tokens(out, s, ts, rest) {
      var n :| 0 < n <= |s| && TokenIs(out, ts[0], s[..n], s[n..]) && Tokens(out, s[n..], ts[1..], rest);
      LexedIs(out, s, ts[0], n);
    }
    if ts[0] != EndOfText && ts[0] != Bad && Lex(out, s).0 == ts[0] && Tokens(out, Lex(out, s).1, ts[1..], rest) {
      LexLeaves(out, s);
      var n := |s| - |Lex(out, s).1|;
      LexedIs(out, s, ts[0], n);
    }
  }

  lemma {:induction false} TokensSplit(out: Outside, s: string, a: seq<Token>, b: seq<Token>, rest: string)
    returns (mid: string)
    requires Tokens(out, s, a + b, rest)
    ensures Tokens(out, s, a, mid) && Tokens(out, mid, b, rest)
    decreases |a|
  {
    hide TokenIs;
    mid := s;
    if a == [] {
      assert a + b == b;
    } else {
      var n :| 0 < n <= |s| && TokenIs(out, (a + b)[0], s[..n], s[n..]) && Tokens(out, s[n..], (a + b)[1..], rest);
      assert (a + b)[1..] == a[1..] + b;
      mid := TokensSplit(out, s[n..], a[1..], b, rest);
    }
  }

  lemma {:induction false} TokensJoin(out: Outside, s: string, a: seq<Token>, mid: string, b: seq<Token>, rest: string)
    requires Tokens(out, s, a, mid) && Tokens(out, mid, b, rest)
    ensures Tokens(out, s, a + b, rest)
    decreases |a|
  {
    hide TokenIs;
    if a == [] {
      assert a + b == b;
    } else {
      var n :| 0 < n <= |s| && TokenIs(out, a[0], s[..n], s[n..]) && Tokens(out, s[n..], a[1..], mid);
      TokensJoin(out, s[n..], a[1..], mid, b, rest);
      assert (a + b)[1..] == a[1..] + b;
    }
  }

  // ----- Whatever is parsed is spelled -----

  lemma TokensOne(out: Outside, s: string, tok: Token)
    requires Lex(out, s).0 == tok && tok != EndOfText && tok != Bad
    ensures Tokens(out, s, [tok], Lex(out, s).1)
  {
    hide Lex;
    TokensStep(out, s, [tok], Lex(out, s).1);
  }

  lemma TokensTwo(out: Outside, s: string, ts: seq<Token>)
    requires |ts| == 2 && forall t | t in ts :: t != EndOfText && t != Bad
    requires Lex(out, s).0 == ts[0] && Lex(out, Lex(out, s).1).0 == ts[1]
    ensures Tokens(out, s, ts, Lex(out, Lex(out, s).1).1)
  {
    hide Lex;
    assert ts[0] in ts && ts[1] in ts;
    var s' := Lex(out, s).1;
    TokensOne(out, s', ts[1]);
    assert ts[1..] == [ts[1]];
    TokensStep(out, s, ts, Lex(out, s').1);
  }

  lemma StrideIsSpelled(out: Outside, s: string, range: Range) returns (ts: seq<Token>)
    requires range.stride == 1 && ParseStride(out, s, range).Some?
    ensures var (sel, rest) := ParseStride(out, s, range).value;
            && sel.Slice? && sel.range == range.(stride := sel.range.stride)
            && StrideSpelled(ts, sel.range.stride) && Tokens(out, s, ts, rest)
  {
    hide Lex, Tokens;
    var (tok, s') := Lex(out, s);
    if tok == CLOSE {
      ts := [CLOSE];
      TokensOne(out, s, CLOSE);
    } else {
      var (tok', s'') := Lex(out, s');
      if tok' == CLOSE {
        ts := [COLON, CLOSE];
        TokensTwo(out, s, ts);
      } else {
        ts := [COLON, tok', CLOSE];
        TokensTwo(out, s', [tok', CLOSE]);
        assert ts[1..] == [tok', CLOSE];
        TokensStep(out, s, ts, Lex(out, s'').1);
      }
    }
  }

  lemma EndIsSpelled(out: Outside, s: string, start: Int64) returns (ts: seq<Token>)
    requires ParseRange(out, s, start).Some?
    ensures var (sel, rest) := ParseRange(out, s, start).value;
            && sel.Slice? && sel.range.start == start
            && EndSpelled(ts, sel.range.afterEnd, sel.range.stride) && Tokens(out, s, ts, rest)
  {
    hide Lex, Tokens, ParseStride, StrideSpelled;
    var (tok, s') := Lex(out, s);
    if tok.Number? {
      var more := StrideIsSpelled(out, s', Range(start, Some(tok.num), 1));
      ts := [tok] + more;
      assert ts[1..] == more;
      TokensStep(out, s, ts, ParseRange(out, s, start).value.1);
    } else {
      ts := StrideIsSpelled(out, s, Range(start, None, 1));
    }
  }

  lemma ItemsStep(out: Outside, s: string, items: seq<Token>, rest: string)
    requires items != [] && (items[0].StringToken? || items[0].Number?)
    ensures var s' := Lex(out, s).1;
            Tokens(out, s, MoreTokens(items), rest) <==>
            && Lex(out, s).0 == COMMA && Lex(out, s').0 == items[0]
            && Tokens(out, Lex(out, s').1, MoreTokens(items[1..]), rest)
  {
    hide Lex, Tokens;
    var ts := MoreTokens(items);
    assert ts[0] == COMMA && ts[1..] == [items[0]] + MoreTokens(items[1..]);
    assert ts[1..][1..] == MoreTokens(items[1..]);
    TokensStep(out, s, ts, rest);
    TokensStep(out, Lex(out, s).1, ts[1..], rest);
  }

  lemma ItemsEnd(out: Outside, s: string, rest: string)
    ensures Tokens(out, s, MoreTokens([]), rest) <==> Lex(out, s) == (CLOSE, rest)
  {
    hide Lex;
    TokensStep(out, s, [CLOSE], rest);
  }

  lemma SelectorsSplit(items: seq<Token>, subs: seq<Selector>)
    requires items != [] && (AllStrings(items) || AllNumbers(items))
    ensures subs + [ItemSelector(items[0])] + Selectors(items[1..]) == subs + Selectors(items)
    ensures [ItemSelector(items[0])] + Selectors(items[1..]) == Selectors(items)
  {
    var one, more := [ItemSelector(items[0])], Selectors(items[1..]);
    assert one + more == Selectors(items);
    assert subs + one + more == subs + (one + more);
  }

  lemma {:induction false} StringsAreSpelled(out: Outside, s: string, subs: seq<Selector>) returns (items: seq<Token>)
    requires subs != [] && ParseStrings(out, s, subs).Some?
    ensures AllStrings(items)
    ensures var (sel, rest) := ParseStrings(out, s, subs).value;
            sel == OneOrList(subs + Selectors(items)) && Tokens(out, s, MoreTokens(items), rest)
    decreases |s|
  {
    hide Lex, Tokens, MoreTokens, OneOrList;
    var (tok, s') := Lex(out, s);
    if tok == CLOSE {
      items := [];
      ItemsEnd(out, s, s');
      assert subs + Selectors(items) == subs;
    } else {
      var (item, s'') := Lex(out, s');
      var more := StringsAreSpelled(out, s'', subs + [Name(item.value)]);
      items := [item] + more;
      assert items[1..] == more;
      SelectorsSplit(items, subs);
      ItemsStep(out, s, items, ParseStrings(out, s, subs).value.1);
    }
  }

  lemma {:induction false} NumbersAreSpelled(out: Outside, s: string, subs: seq<Selector>) returns (items: seq<Token>)
    requires subs != [] && ParseNumbers(out, s, subs).Some?
    ensures AllNumbers(items)
    ensures var (sel, rest) := ParseNumbers(out, s, subs).value;
            sel == OneOrList(subs + Selectors(items)) && Tokens(out, s, MoreTokens(items), rest)
    decreases |s|
  {
    hide Lex, Tokens, MoreTokens, OneOrList;
    var (tok, s') := Lex(out, s);
    if tok == CLOSE {
      items := [];
      ItemsEnd(out, s, s');
      assert subs + Selectors(items) == subs;
    } else {
      var (item, s'') := Lex(out, s');
      var more := NumbersAreSpelled(out, s'', subs + [Slice(RangeOf1(item.num))]);
      items := [item] + more;
      assert items[1..] == more;
      SelectorsSplit(items, subs);
      ItemsStep(out, s, items, ParseNumbers(out, s, subs).value.1);
    }
  }

  /** A list, given its first item and the items after that. */
  lemma ListIsSpelled(out: Outside, s: string, items: seq<Token>, rest: string) returns (ts: seq<Token>)
    requires items != [] && (AllStrings(items) || AllNumbers(items)) && Lex(out, s).0 == items[0]
    requires Tokens(out, Lex(out, s).1, MoreTokens(items[1..]), rest)
    ensures ListSpelled(ts, OneOrList(Selectors(items))) && Tokens(out, s, ts, rest)
  {
    hide Lex, Tokens, MoreTokens, OneOrList;
    ts := [items[0]] + MoreTokens(items[1..]);
    assert ts[1..] == MoreTokens(items[1..]);
    TokensStep(out, s, ts, rest);
  }

  lemma NumericIsSpelled(out: Outside, s: string) returns (ts: seq<Token>)
    requires Lex(out, s).0.Number? && ParseBracket(out, s).Some?
    ensures var (sel, rest) := ParseBracket(out, s).value; BracketSpelled(ts, sel) && Tokens(out, s, ts, rest)
  {
    hide Lex, Tokens, ParseRange, ParseNumbers, EndSpelled, ListSpelled, OneOrList;
    var (tok, s') := Lex(out, s);
    var (sel, rest) := ParseBracket(out, s).value;
    var (tok', s'') := Lex(out, s');
    if tok' == COLON {
      var more := EndIsSpelled(out, s'', tok.num);
      ts := [tok, COLON] + more;
      assert ts[1..] == [COLON] + more && ts[1..][1..] == more && ts[2..] == more;
      TokensStep(out, s', ts[1..], rest);
      TokensStep(out, s, ts, rest);
    } else {
      var items := NumbersAreSpelled(out, s', [ItemSelector(tok)]);
      var all := [tok] + items;
      assert all[1..] == items;
      SelectorsSplit(all, []);
      ts := ListIsSpelled(out, s, all, rest);
    }
  }

  lemma BracketIsSpelled(out: Outside, s: string) returns (ts: seq<Token>)
    requires ParseBracket(out, s).Some?
    ensures var (sel, rest) := ParseBracket(out, s).value; BracketSpelled(ts, sel) && Tokens(out, s, ts, rest)
  {
    hide Lex, Tokens, ParseRange, ParseStrings, ParseNumeric, EndSpelled, ListSpelled, OneOrList;
    var (tok, s') := Lex(out, s);
    var (sel, rest) := ParseBracket(out, s).value;
    match tok {
      case Special(text) =>
        if text == "*" {
          ts := [STAR, CLOSE];
          TokensTwo(out, s, ts);
        } else {
          var more := EndIsSpelled(out, s', 0);
          ts := [COLON] + more;
          assert ts[1..] == more;
          TokensStep(out, s, ts, rest);
        }
      case Number(_) =>
        ts := NumericIsSpelled(out, s);
      case StringToken(value) =>
        var items := StringsAreSpelled(out, s', [ItemSelector(tok)]);
        var all := [tok] + items;
        assert all[1..] == items;
        SelectorsSplit(all, []);
        ts := ListIsSpelled(out, s, all, rest);
    }
  }

  lemma OneIsSpelled(out: Outside, s: string, takeStar: bool) returns (ts: seq<Token>)
    requires ParseOne(out, s, takeStar).Some?
    ensures var (sel, rest) := ParseOne(out, s, takeStar).value; Spelled(ts, sel, takeStar) && Tokens(out, s, ts, rest)
  {
    hide Lex, Tokens, ParseBracket, BracketSpelled;
    var (tok, s') := Lex(out, s);
    var (sel, rest) := ParseOne(out, s, takeStar).value;
    if tok == DOT {
      ts := [DOT, Lex(out, s').0];
      TokensTwo(out, s, ts);
    } else if tok == OPEN {
      var more := BracketIsSpelled(out, s');
      ts := [OPEN] + more;
      assert ts[1..] == more;
      TokensStep(out, s, ts, rest);
    } else {
      ts := [tok];
      TokensOne(out, s, tok);
    }
  }

  lemma {:induction false} AllAreSpelled(out: Outside, s: string, takeStar: bool) returns (ts: seq<Token>)
    requires ParseAll(out, s, takeStar).Some?
    ensures AllSpelled(ts, ParseAll(out, s, takeStar).value, takeStar) && Tokens(out, s, ts, "")
    decreases |s|
  {
    hide ParseOne, Spelled;
    ts := [];
    if s != "" {
      hide Tokens;
      var (sel, rest) := ParseOne(out, s, takeStar).value;
      var first := OneIsSpelled(out, s, takeStar);
      var more := AllAreSpelled(out, rest, sel.Recurse?);
      TokensJoin(out, s, first, rest, more, "");
      ts := first + more;
      var p := ParseAll(out, s, takeStar).value;
      assert p[0] == sel && p[1..] == ParseAll(out, rest, sel.Recurse?).value;
      assert ts[..|first|] == first && ts[|first|..] == more;
    }
  }

  // ----- Whatever is spelled is parsed -----

  lemma StrideIsParsed(out: Outside, s: string, range: Range, stride: Int64, ts: seq<Token>, rest: string)
    requires range.stride == 1 && StrideSpelled(ts, stride) && Tokens(out, s, ts, rest)
    ensures ParseStride(out, s, range) == Some((Slice(range.(stride := stride)), rest))
  {
    hide Lex;
    TokensStep(out, s, ts, rest);
    if |ts| > 1 {
      TokensStep(out, Lex(out, s).1, ts[1..], rest);
      if |ts| > 2 {
        TokensStep(out, Lex(out, Lex(out, s).1).1, ts[1..][1..], rest);
      }
    }
  }

  lemma EndIsParsed(out: Outside, s: string, range: Range, ts: seq<Token>, rest: string)
    requires EndSpelled(ts, range.afterEnd, range.stride) && Tokens(out, s, ts, rest)
    ensures ParseRange(out, s, range.start) == Some((Slice(range), rest))
  {
    hide Lex, Tokens, ParseStride;
    TokensStep(out, s, ts, rest);
    if range.afterEnd.Some? {
      StrideIsParsed(out, Lex(out, s).1, range.(stride := 1), range.stride, ts[1..], rest);
    } else {
      StrideIsParsed(out, s, range.(stride := 1), range.stride, ts, rest);
    }
  }

  lemma {:induction false} StringsAreParsed(out: Outside, s: string, subs: seq<Selector>, items: seq<Token>,
                                            rest: string)
    requires subs != [] && AllStrings(items) && Tokens(out, s, MoreTokens(items), rest)
    ensures ParseStrings(out, s, subs) == Some((OneOrList(subs + Selectors(items)), rest))
    decreases |items|
  {
    hide Lex, Tokens, MoreTokens, OneOrList;
    if items == [] {
      ItemsEnd(out, s, rest);
      assert subs + Selectors(items) == subs;
    } else {
      ItemsStep(out, s, items, rest);
      SelectorsSplit(items, subs);
      StringsAreParsed(out, Lex(out, Lex(out, s).1).1, subs + [ItemSelector(items[0])], items[1..], rest);
    }
  }

  lemma {:induction false} NumbersAreParsed(out: Outside, s: string, subs: seq<Selector>, items: seq<Token>,
                                            rest: string)
    requires subs != [] && AllNumbers(items) && Tokens(out, s, MoreTokens(items), rest)
    ensures ParseNumbers(out, s, subs) == Some((OneOrList(subs + Selectors(items)), rest))
    decreases |items|
  {
    hide Lex, Tokens, MoreTokens, OneOrList;
    if items == [] {
      ItemsEnd(out, s, rest);
      assert subs + Selectors(items) == subs;
    } else {
      ItemsStep(out, s, items, rest);
      SelectorsSplit(items, subs);
      NumbersAreParsed(out, Lex(out, Lex(out, s).1).1, subs + [ItemSelector(items[0])], items[1..], rest);
    }
  }

  /** After the first item there is a comma or the end, never a colon. */
  lemma MoreIsNoColon(out: Outside, s: string, items: seq<Token>, rest: string)
    requires Tokens(out, s, MoreTokens(items), rest)
    ensures Lex(out, s).0 != COLON
  {
    hide Lex;
    TokensStep(out, s, MoreTokens(items), rest);
  }

  lemma ListIsParsed(out: Outside, s: string, sel: Selector, ts: seq<Token>, rest: string)
    requires ListSpelled(ts, sel) && Tokens(out, s, ts, rest)
    ensures ParseBracket(out, s) == Some((sel, rest))
  {
    hide Lex, Tokens, MoreTokens, OneOrList, ParseNumbers, ParseStrings, ParseRange;
    var items: seq<Token> :| items != [] && (AllStrings(items) || AllNumbers(items))
                             && ts == [items[0]] + MoreTokens(items[1..]) && sel == OneOrList(Selectors(items));
    assert ts[1..] == MoreTokens(items[1..]);
    TokensStep(out, s, ts, rest);
    var s' := Lex(out, s).1;
    SelectorsSplit(items, []);
    if items[0].StringToken? {
      StringsAreParsed(out, s', [ItemSelector(items[0])], items[1..], rest);
    } else {
      MoreIsNoColon(out, s', items[1..], rest);
      NumbersAreParsed(out, s', [ItemSelector(items[0])], items[1..], rest);
    }
  }

  lemma RangeIsParsed(out: Outside, s: string, range: Range, ts: seq<Token>, rest: string)
    requires RangeSpelled(ts, range) && Tokens(out, s, ts, rest)
    ensures ParseBracket(out, s) == Some((Slice(range), rest))
  {
    hide Lex, Tokens, EndSpelled, ParseNumbers, ParseStrings, ParseRange;
    TokensStep(out, s, ts, rest);
    var s' := Lex(out, s).1;
    if ts[0] == COLON {
      EndIsParsed(out, s', range, ts[1..], rest);
    } else {
      TokensStep(out, s', ts[1..], rest);
      assert ts[1..][1..] == ts[2..];
      EndIsParsed(out, Lex(out, s').1, range, ts[2..], rest);
    }
  }

  lemma OneIsParsed(out: Outside, s: string, sel: Selector, takeStar: bool, ts: seq<Token>, rest: string)
    requires Spelled(ts, sel, takeStar) && Tokens(out, s, ts, rest)
    ensures ParseOne(out, s, takeStar) == Some((sel, rest))
  {
    hide Lex, ListSpelled, RangeSpelled, ParseNumeric, ParseStrings, ParseRange;
    TokensStep(out, s, ts, rest);
    var s' := Lex(out, s).1;
    if ts[0] == OPEN {
      if ListSpelled(ts[1..], sel) {
        ListIsParsed(out, s', sel, ts[1..], rest);
      } else if sel.Slice? && RangeSpelled(ts[1..], sel.range) {
        RangeIsParsed(out, s', sel.range, ts[1..], rest);
      } else {
        TokensStep(out, s', ts[1..], rest);
        TokensStep(out, Lex(out, s').1, ts[1..][1..], rest);
      }
    } else if |ts| == 2 {
      TokensStep(out, s', ts[1..], rest);
    }
  }

  lemma ParsedOneMore(out: Outside, s: string, takeStar: bool, sel: Selector, rest: string, more: Parsed)
    requires ParseOne(out, s, takeStar) == Some((sel, rest)) && ParseAll(out, rest, sel.Recurse?) == Some(more)
    ensures ParseAll(out, s, takeStar) == Some([sel] + more)
  {
    hide ParseOne;
  }

  lemma FirstSpelled(ts: seq<Token>, p: Parsed, takeStar: bool) returns (k: nat)
    requires p != [] && AllSpelled(ts, p, takeStar)
    ensures k <= |ts| && Spelled(ts[..k], p[0], takeStar) && AllSpelled(ts[k..], p[1..], p[0].Recurse?)
  {
    hide Spelled;
    k :| 0 <= k <= |ts| && Spelled(ts[..k], p[0], takeStar) && AllSpelled(ts[k..], p[1..], p[0].Recurse?);
  }

  lemma {:induction false} AllAreParsed(out: Outside, s: string, p: Parsed, takeStar: bool, ts: seq<Token>)
    requires AllSpelled(ts, p, takeStar) && Tokens(out, s, ts, "")
    ensures ParseAll(out, s, takeStar) == Some(p)
    decreases |p|
  {
    hide ParseOne, Spelled;
    if p != [] {
      hide Tokens, ParseAll, AllSpelled;
      var k := FirstSpelled(ts, p, takeStar);
      assert ts == ts[..k] + ts[k..];
      var mid := TokensSplit(out, s, ts[..k], ts[k..], "");
      OneIsParsed(out, s, p[0], takeStar, ts[..k], mid);
      AllAreParsed(out, mid, p[1..], p[0].Recurse?, ts[k..]);
      ParsedOneMore(out, s, takeStar, p[0], mid, p[1..]);
      assert [p[0]] + p[1..] == p;
    }
  }

  /** The parser accepts a text as a list of selectors exactly when the grammar derives them from it. */
  lemma ParsesWhatIsDerived(out: Outside, s: string, p: Parsed)
    ensures ParseTop(out, s) == Some(p) <==> Derives(out, s, p)
  {
    hide Lex, Tokens, ParseAll, AllSpelled;
    var dollar := Identifier("$");
    if ParseTop(out, s) == Some(p) {
      var ts := AllAreSpelled(out, Lex(out, s).1, false);
      assert ([dollar] + ts)[1..] == ts;
      TokensStep(out, s, [dollar] + ts, "");
    }
    if Derives(out, s, p) {
      var ts :| Tokens(out, s, [dollar] + ts, "") && AllSpelled(ts, p, false);
      assert ([dollar] + ts)[1..] == ts;
      TokensStep(out, s, [dollar] + ts, "");
      AllAreParsed(out, Lex(out, s).1, p, false, ts);
    }
  }

  /** The grammar is not ambiguous: no text derives two lists of selectors. */
  lemma DerivesAtMostOne(out: Outside, s: string, p: Parsed, q: Parsed)
    requires Derives(out, s, p) && Derives(out, s, q)
    ensures p == q
  {
    hide Derives, ParseTop;
    ParsesWhatIsDerived(out, s, p);
    ParsesWhatIsDerived(out, s, q);
  }
}
