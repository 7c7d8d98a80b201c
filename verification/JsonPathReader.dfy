/**
 The lexer and the parser as they work: a lexer that moves over the source text one character at
 a time, and parsing methods that drive it (pkg/jsonpath/lexer.go, pkg/jsonpath/parser.go).
 */
module JsonPathReader {
  import opened Changes
  import opened JsonPath
  import opened JsonPathPrinter
  import opened JsonPathGrammar

  class Lexer {
    const out: Outside
    const source: string
    /** The next character to process, and the positions of its start and its end. */
    var chr: char
    var chrPos: nat
    var nextPos: nat
    var eof: bool

    ghost predicate Valid()
      reads this
    {
      if eof then chrPos == nextPos == |source| && chr == '\0'
      else chrPos < |source| && chr == source[chrPos] && nextPos == chrPos + 1
    }

    /** The text that remains. */
    ghost function Rest(): string
      reads this
      requires Valid()
    {
      source[chrPos..]
    }

    constructor (out: Outside, source: string)
      ensures Valid() && Rest() == source && this.out == out
    {
      this.out, this.source := out, source;
      chrPos, nextPos, chr, eof := 0, 0, '\0', true;
      if |source| > 0 {
        chr, nextPos, eof := source[0], 1, false;
      }
    }

    method Advance() returns (ok: bool)
      requires Valid()
      modifies this
      ensures Valid() && ok == !old(eof)
      ensures chrPos == old(nextPos)
    {
      if eof {
        return false;
      }
      chrPos := nextPos;
      if chrPos < |source| {
        chr, nextPos := source[chrPos], chrPos + 1;
      } else {
        chr, eof := '\0', true;
      }
      return true;
    }

    /** The next token; the lexer moves past it unless it is bad. */
    method Next() returns (tok: Token)
      requires Valid()
      modifies this
      ensures Valid() && tok == Lex(out, old(Rest())).0
      ensures tok != Bad ==> Rest() == Lex(out, old(Rest())).1
    {
      hide IdentifierEnd, NumberEnd, StringEnd, ParseInt;
      ghost var s := Rest();
      if eof {
        return EndOfText;
      }
      var first := chr;
      if first in "[]*,:" {
        var _ := Advance();
        return Special([first]);
      }
      if first == '.' {
        var _ := Advance();
        if chr == '.' {
          var _ := Advance();
          return Special("..");
        }
        return Special(".");
      }
      if '0' <= chr <= '9' {
        tok := NextNumber();
      } else if chr == '"' || chr == '\'' {
        tok := NextString();
      } else if IdentifierStart(out, first) {
        tok := NextIdentifierName();
      } else {
        tok := Bad;
      }
    }

    method NextIdentifierName() returns (tok: Token)
      requires Valid() && !eof
      modifies this
      ensures Valid()
      ensures var s := old(Rest()); var n := IdentifierEnd(out, s, 1); tok == Identifier(s[..n]) && Rest() == s[n..]
    {
      ghost var s := Rest();
      var startPos := chrPos;
      while !eof
        invariant Valid() && !eof && startPos <= chrPos
        invariant IdentifierEnd(out, s, 1) == IdentifierEnd(out, s, chrPos - startPos + 1)
        decreases |source| - chrPos
      {
        var _ := Advance();
        if !IdentifierPart(out, chr) {
          break;
        }
      }
      tok := Identifier(source[startPos..chrPos]);
    }

    method NextNumber() returns (tok: Token)
      requires Valid() && !eof
      modifies this
      ensures Valid()
      ensures var s := old(Rest());
              var n := NumberEnd(s, 1, if s[0] == '0' then Undecided else Decimal);
              tok == (match ParseInt(s[..n]) case Some(num) => Number(num) case None => Bad) && Rest() == s[n..]
    {
      hide ParseInt;
      ghost var s := Rest();
      var startPos := chrPos;
      var isHex, isOctal, baseable := false, false, chr == '0';
      ghost var base := if baseable then Undecided else Decimal;
      ghost var n := NumberEnd(s, 1, base);
      while !eof
        invariant Valid() && !eof && startPos <= chrPos
        invariant base == if baseable then Undecided else if isOctal then Octal else if isHex then Hex else Decimal
        invariant !(isHex && isOctal) && (baseable ==> !isHex && !isOctal)
        invariant n == NumberEnd(s, chrPos - startPos + 1, base)
        decreases |source| - chrPos
      {
        var _ := Advance();
        ghost var i, was := chrPos - startPos, base;
        assert n == NumberEnd(s, i, was) && (!eof ==> s[i] == chr);
        assert !eof && InNumber(was, chr) ==> n == NumberEnd(s, i + 1, BaseAfter(was, chr));
        assert eof || !InNumber(was, chr) ==> n == i;
        base := BaseAfter(base, chr);
        if baseable {
          baseable := false;
          if chr == 'o' {
            isOctal := true;
            continue;
          } else if chr == 'x' {
            isHex := true;
            continue;
          }
        }
        if '0' <= chr < '8' {
          continue;
        }
        if !isOctal && (chr == '8' || chr == '9') {
          continue;
        }
        if isHex && ('a' <= chr <= 'f' || 'A' <= chr <= 'F') {
          continue;
        }
        break;
      }
      assert s[..n] == source[startPos..chrPos] && s[n..] == source[chrPos..];
      var num := ParseInt(source[startPos..chrPos]);
      tok := match num case Some(n) => Number(n) case None => Bad;
    }

    method NextString() returns (tok: Token)
      requires Valid() && !eof
      modifies this
      ensures Valid()
      ensures var s := old(Rest());
              match StringEnd(s, s[0], 1)
              case None => tok == Bad
              case Some(n) =>
                && tok == (match out.literal(s[..n]) case Some(value) => StringToken(value) case None => Bad)
                && Rest() == s[n..]
    {
      ghost var s := Rest();
      var startPos := chrPos;
      var close := chr;
      while true
        invariant Valid() && !eof && startPos <= chrPos
        invariant StringEnd(s, close, 1) == StringEnd(s, close, chrPos - startPos + 1)
        decreases |source| - chrPos
      {
        var _ := Advance();
        if eof {
          return Bad;
        }
        if chr == close {
          var _ := Advance();
          assert s[..chrPos - startPos] == source[startPos..chrPos] && s[chrPos - startPos..] == source[chrPos..];
          var value := out.literal(source[startPos..chrPos]);
          return match value case Some(v) => StringToken(v) case None => Bad;
        }
        if chr == '\\' {
          var _ := Advance();
          if eof {
            return Bad;
          }
        }
      }
    }
  }

  /** What the method has read agrees with the text, and the lexer has moved past it. */
  ghost predicate Reads(lxr: Lexer, sel: Option<Selector>, r: Reading)
    reads lxr
  {
    lxr.Valid() && (if r.None? then sel.None? else sel == Some(r.value.0) && lxr.Rest() == r.value.1)
  }

  method ParseStringSubscripts(lxr: Lexer, str1: string) returns (sel: Option<Selector>)
    requires lxr.Valid()
    modifies lxr
    ensures Reads(lxr, sel, ParseStrings(lxr.out, old(lxr.Rest()), [Name(str1)]))
  {
    hide Lex;
    ghost var r := ParseStrings(lxr.out, lxr.Rest(), [Name(str1)]);
    var subs := [Name(str1)];
    while true
      invariant lxr.Valid() && subs != []
      invariant r == ParseStrings(lxr.out, lxr.Rest(), subs)
      decreases |lxr.Rest()|
    {
      var tok := lxr.Next();
      if tok == Special("]") {
        return Some(OneOrList(subs));
      }
      if tok != Special(",") {
        return None;
      }
      tok := lxr.Next();
      if !tok.StringToken? {
        return None;
      }
      subs := subs + [Name(tok.value)];
    }
  }

  method ParseNumericSubscripts(lxr: Lexer, num1: Int64) returns (sel: Option<Selector>)
    requires lxr.Valid()
    modifies lxr
    ensures Reads(lxr, sel, ParseNumeric(lxr.out, old(lxr.Rest()), num1))
  {
    hide Lex, ParseRange;
    ghost var s := lxr.Rest();
    var tok := lxr.Next();
    if tok == Special(":") {
      sel := ParseRangeTail(lxr, num1);
      return;
    }
    var subs := [Slice(RangeOf1(num1))];
    ghost var r := ParseNumbers(lxr.out, s, subs);
    while true
      invariant lxr.Valid() && subs != [] && tok == Lex(lxr.out, s).0
                && (tok != Bad ==> lxr.Rest() == Lex(lxr.out, s).1)
      invariant r == ParseNumbers(lxr.out, s, subs)
      decreases |s|
    {
      if tok == Special("]") {
        return Some(OneOrList(subs));
      }
      if tok != Special(",") {
        return None;
      }
      tok := lxr.Next();
      if !tok.Number? {
        return None;
      }
      subs := subs + [Slice(RangeOf1(tok.num))];
      s := lxr.Rest();
      tok := lxr.Next();
    }
  }

  method ParseRangeTail(lxr: Lexer, start: Int64) returns (sel: Option<Selector>)
    requires lxr.Valid()
    modifies lxr
    ensures Reads(lxr, sel, ParseRange(lxr.out, old(lxr.Rest()), start))
  {
    hide Lex;
    var range := Range(start, None, 1);
    var tok := lxr.Next();
    if tok.Number? {
      range := range.(afterEnd := Some(tok.num));
      tok := lxr.Next();
    }
    if tok == Special("]") {
      return Some(Slice(range));
    }
    if tok != Special(":") {
      return None;
    }
    tok := lxr.Next();
    if tok == Special("]") {
      return Some(Slice(range));
    }
    if !tok.Number? {
      return None;
    }
    range := range.(stride := tok.num);
    tok := lxr.Next();
    if tok != Special("]") {
      return None;
    }
    return Some(Slice(range));
  }

  /** After a dot. */
  method ParseAfterDot(lxr: Lexer) returns (sel: Option<Selector>)
    requires lxr.Valid()
    modifies lxr
    ensures Reads(lxr, sel, ParseDot(lxr.out, old(lxr.Rest())))
  {
    hide Lex;
    var tok := lxr.Next();
    if tok == Special("*") {
      return Some(EveryChild);
    }
    if tok.Identifier? {
      return Some(Name(tok.name));
    }
    if tok.Number? {
      return Some(Slice(RangeOf1(tok.num)));
    }
    return None;
  }

  /** After an opening bracket. */
  method ParseAfterBracket(lxr: Lexer) returns (sel: Option<Selector>)
    requires lxr.Valid()
    modifies lxr
    ensures Reads(lxr, sel, ParseBracket(lxr.out, old(lxr.Rest())))
  {
    hide Lex, ParseStrings, ParseNumeric, ParseRange;
    var tok := lxr.Next();
    if tok == Special("*") {
      tok := lxr.Next();
      if tok != Special("]") {
        return None;
      }
      return Some(EveryChild);
    }
    if tok == Special(":") {
      sel := ParseRangeTail(lxr, 0);
    } else if tok.Number? {
      sel := ParseNumericSubscripts(lxr, tok.num);
    } else if tok.StringToken? {
      sel := ParseStringSubscripts(lxr, tok.value);
    } else {
      return None;
    }
  }

  function After(parsed: Parsed, more: Option<Parsed>): Option<Parsed> {
    match more case None => None case Some(m) => Some(parsed + m)
  }

  method Parse(lxr: Lexer) returns (result: Option<Parsed>)
    requires lxr.Valid()
    modifies lxr
    ensures lxr.Valid() && result == ParseTop(lxr.out, old(lxr.Rest()))
  {
    hide Lex, ParseDot, ParseBracket;
    var tok := lxr.Next();
    if tok != Identifier("$") {
      return None;
    }
    ghost var all := ParseAll(lxr.out, lxr.Rest(), false);
    assert all.Some? ==> [] + all.value == all.value;
    var parsed: Parsed := [];
    var nextTakeStar := false;
    while !lxr.eof
      invariant lxr.Valid()
      invariant all == After(parsed, ParseAll(lxr.out, lxr.Rest(), nextTakeStar))
      decreases |lxr.Rest()|
    {
      var takeStar := nextTakeStar;
      nextTakeStar := false;
      ghost var s, before := lxr.Rest(), parsed;
      tok := lxr.Next();
      var sel: Option<Selector> := None;
      if tok == Special(".") {
        sel := ParseAfterDot(lxr);
      } else if tok == Special("[") {
        sel := ParseAfterBracket(lxr);
      } else if tok == Special("..") {
        sel := Some(Recurse);
        nextTakeStar := true;
      } else if takeStar && tok == Special("*") {
        sel := Some(EveryChild);
      }
      if sel.None? {
        assert ParseOne(lxr.out, s, takeStar) == None;
        return None;
      }
      NotRecurse(lxr.out, s, takeStar);
      assert ParseOne(lxr.out, s, takeStar) == Some((sel.value, lxr.Rest()));
      parsed := parsed + [sel.value];
      AfterOneMore(before, sel.value, ParseAll(lxr.out, lxr.Rest(), nextTakeStar));
    }
    assert lxr.Rest() == "" && parsed + [] == parsed;
    return Some(parsed);
  }

  /** Only two dots spell the selector of all descendants. */
  lemma NotRecurse(out: Outside, s: string, takeStar: bool)
    ensures var r := ParseOne(out, s, takeStar); r.Some? ==> (r.value.0.Recurse? <==> Lex(out, s).0 == Special(".."))
  {
    hide Lex, ParseStrings, ParseNumbers;
    var (_, rest) := Lex(out, s);
    var (tok', rest') := Lex(out, rest);
    if tok'.StringToken? {
      NamesOrList(out, rest', [Name(tok'.value)]);
    }
    if tok'.Number? {
      NumbersOrList(out, rest', [Slice(RangeOf1(tok'.num))]);
    }
  }

  lemma {:induction false} NamesOrList(out: Outside, s: string, subs: seq<Selector>)
    requires subs != [] && !subs[0].Recurse?
    ensures ParseStrings(out, s, subs).Some? ==> !ParseStrings(out, s, subs).value.0.Recurse?
    decreases |s|
  {
    hide Lex;
    var (tok, rest) := Lex(out, s);
    if tok == Special(",") {
      var (tok', rest') := Lex(out, rest);
      if tok'.StringToken? {
        NamesOrList(out, rest', subs + [Name(tok'.value)]);
      }
    }
  }

  lemma {:induction false} NumbersOrList(out: Outside, s: string, subs: seq<Selector>)
    requires subs != [] && !subs[0].Recurse?
    ensures ParseNumbers(out, s, subs).Some? ==> !ParseNumbers(out, s, subs).value.0.Recurse?
    decreases |s|
  {
    hide Lex;
    var (tok, rest) := Lex(out, s);
    if tok == Special(",") {
      var (tok', rest') := Lex(out, rest);
      if tok'.Number? {
        NumbersOrList(out, rest', subs + [Slice(RangeOf1(tok'.num))]);
      }
    }
  }

  lemma AfterOneMore(parsed: Parsed, sel: Selector, more: Option<Parsed>)
    ensures After(parsed, After([sel], more)) == After(parsed + [sel], more)
  {
    if more.Some? {
      assert parsed + ([sel] + more.value) == parsed + [sel] + more.value;
    }
  }

  /** Reads a whole source text: the result is what the grammar derives from it, if it derives anything. */
  method ParseString(out: Outside, source: string) returns (result: Option<Parsed>)
    ensures forall p :: result == Some(p) <==> Derives(out, source, p)
    ensures result == ParseTop(out, source)
    ensures result.Some? ==> AllProducible(result.value)
  {
    hide ParseAll, AllProducible, Derives;
    var lxr := new Lexer(out, source);
    result := Parse(lxr);
    ParsedIsProducible(out, Lex(out, source).1, false);
    forall p
      ensures result == Some(p) <==> Derives(out, source, p)
    {
      ParsesWhatIsDerived(out, source, p);
    }
  }

  // ----- Equality -----

  method RangesEqual(left: Option<Range>, right: Option<Range>) returns (eq: bool)
    ensures eq <==> left == right
  {
    if left.None? {
      return right.None?;
    }
    if right.None? {
      return false;
    }
    if left.value.start != right.value.start || left.value.stride != right.value.stride {
      return false;
    }
    return left.value.afterEnd == right.value.afterEnd;
  }

  method SelectorsEqual(left: Selector, right: Selector) returns (eq: bool)
    ensures eq <==> left == right
    decreases left
  {
    match (left, right) {
      case (Name(l), Name(r)) => return l == r;
      case (Slice(l), Slice(r)) => eq := RangesEqual(Some(l), Some(r));
      case (List(l), List(r)) => eq := ParsedEqual(l, r);
      case (Recurse, Recurse) => return true;
      case (EveryChild, EveryChild) => return true;
      case _ => return false;
    }
  }

  method ParsedEqual(left: Parsed, right: Parsed) returns (eq: bool)
    ensures eq <==> left == right
    decreases left
  {
    if |left| != |right| {
      return false;
    }
    for i := 0 to |left|
      invariant left[..i] == right[..i]
    {
      var same := SelectorsEqual(left[i], right[i]);
      if !same {
        return false;
      }
    }
    assert left[..|left|] == left && right[..|right|] == right;
    return true;
  }
}
