/**
 A canonical way of writing selectors, and the proof that the parser reads back what was written.
 Conversely, whatever the parser reads is a list of producible selectors.
 */
module JsonPathPrinter {
  import opened Changes
  import opened JsonPath

  // ----- What the parser can produce -----

  predicate NonNegative(i: Int64) {
    0 <= i
  }

  predicate ProducibleRange(r: Range) {
    && NonNegative(r.start)
    && (r == RangeOf1(r.start) || ((r.afterEnd.Some? ==> NonNegative(r.afterEnd.value)) && NonNegative(r.stride)))
  }

  /** A selector that some text spells: lists are flat, of one kind, and have at least two members. */
  predicate Producible(sel: Selector) {
    match sel
    case Slice(r) => ProducibleRange(r)
    case List(l) => |l| >= 2 && (AllNames(l) || AllIndices(l))
    case _ => true
  }

  predicate AllNames(l: seq<Selector>) {
    forall i | 0 <= i < |l| :: l[i].Name?
  }

  predicate AllIndices(l: seq<Selector>) {
    forall i | 0 <= i < |l| :: l[i].Slice? && l[i].range == RangeOf1(l[i].range.start) && NonNegative(l[i].range.start)
  }

  predicate AllProducible(p: Parsed) {
    forall i | 0 <= i < |p| :: Producible(p[i])
  }

  lemma LexedNumber(out: Outside, s: string)
    ensures Lex(out, s).0.Number? ==> NonNegative(Lex(out, s).0.num)
  {
  }

  lemma {:induction false} StringsProducible(out: Outside, s: string, subs: seq<Selector>)
    requires subs != [] && AllNames(subs)
    ensures ParseStrings(out, s, subs).Some? ==> Producible(ParseStrings(out, s, subs).value.0)
    decreases |s|
  {
    hide Lex;
    var (tok, rest) := Lex(out, s);
    if tok == Special(",") {
      var (tok', rest') := Lex(out, rest);
      if tok'.StringToken? {
        StringsProducible(out, rest', subs + [Name(tok'.value)]);
      }
    }
  }

  lemma {:induction false} NumbersProducible(out: Outside, s: string, subs: seq<Selector>)
    requires subs != [] && AllIndices(subs)
    ensures ParseNumbers(out, s, subs).Some? ==> Producible(ParseNumbers(out, s, subs).value.0)
    decreases |s|
  {
    hide Lex;
    var (tok, rest) := Lex(out, s);
    if tok == Special(",") {
      LexedNumber(out, rest);
      var (tok', rest') := Lex(out, rest);
      if tok'.Number? {
        NumbersProducible(out, rest', subs + [Slice(RangeOf1(tok'.num))]);
      }
    }
  }

  lemma RangeProducible(out: Outside, s: string, start: Int64)
    requires NonNegative(start)
    ensures ParseRange(out, s, start).Some? ==> Producible(ParseRange(out, s, start).value.0)
  {
    hide Lex;
    LexedNumber(out, s);
    var (tok, rest) := Lex(out, s);
    var s' := if tok.Number? then rest else s;
    LexedNumber(out, Lex(out, s').1);
  }

  lemma OneProducible(out: Outside, s: string, takeStar: bool)
    ensures ParseOne(out, s, takeStar).Some? ==> Producible(ParseOne(out, s, takeStar).value.0)
  {
    hide Lex, ParseStrings, ParseNumbers, ParseRange;
    var (tok, s1) := Lex(out, s);
    if tok == Special(".") {
      LexedNumber(out, s1);
    } else if tok == Special("[") {
      LexedNumber(out, s1);
      var (tok', s2) := Lex(out, s1);
      match tok' {
        case Special(_) =>
          RangeProducible(out, s2, 0);
        case Number(num) =>
          RangeProducible(out, Lex(out, s2).1, num);
          NumbersProducible(out, s2, [Slice(RangeOf1(num))]);
        case StringToken(value) =>
          StringsProducible(out, s2, [Name(value)]);
        case _ =>
      }
    }
  }

  /** Whatever is read is producible. */
  lemma {:induction false} ParsedIsProducible(out: Outside, s: string, takeStar: bool)
    ensures ParseAll(out, s, takeStar).Some? ==> AllProducible(ParseAll(out, s, takeStar).value)
    decreases |s|
  {
    hide ParseOne, Producible;
    if s != "" {
      OneProducible(out, s, takeStar);
      var r := ParseOne(out, s, takeStar);
      if r.Some? {
        ParsedIsProducible(out, r.value.1, r.value.0.Recurse?);
      }
    }
  }

  // ----- Tokens are as long as they can be -----

  lemma {:induction false} IdentifierStops(out: Outside, s: string, i: nat)
    requires i <= |s|
    ensures var n := IdentifierEnd(out, s, i);
            (forall j | i <= j < n :: IdentifierPart(out, s[j])) && (n < |s| ==> !IdentifierPart(out, s[n]))
    decreases |s| - i
  {
    if i < |s| && IdentifierPart(out, s[i]) {
      IdentifierStops(out, s, i + 1);
    }
  }

  lemma {:induction false} NumberStops(s: string, i: nat, base: Base)
    requires i <= |s| && (base == Undecided || base == Decimal)
    ensures var n := NumberEnd(s, i, base);
            (forall j | i <= j < n :: IsDigit(s[j])) ==> n < |s| ==> !IsDigit(s[n])
    decreases |s| - i
  {
    if i < |s| && InNumber(base, s[i]) {
      if IsDigit(s[i]) {
        NumberStops(s, i + 1, BaseAfter(base, s[i]));
      } else {
        assert NumberEnd(s, i, base) > i;
      }
    }
  }

  /**
   A name is as long as identifier characters go on; a number is decimal, as long as digits go on,
   and its value is what the digits say; two dots together are one token.
   */
  lemma LexIsMaximal(out: Outside, s: string)
    ensures var (tok, rest) := Lex(out, s);
            match tok
            case Identifier(name) =>
              && s == name + rest && IsIdentifier(out, name)
              && (rest != "" ==> !IdentifierPart(out, rest[0]))
            case Number(num) =>
              && |rest| < |s| && s[|s| - |rest|..] == rest
              && (var text := s[..|s| - |rest|]; AllDigits(text) && Value(text) == num)
              && (rest != "" ==> !IsDigit(rest[0]))
            case Special(text) => s == text + rest && (text == "." ==> rest == "" || rest[0] != '.')
            case _ => true
  {
    var (tok, rest) := Lex(out, s);
    if tok.Identifier? {
      IdentifierIsMaximal(out, s);
    } else if tok.Number? {
      NumberIsMaximal(out, s);
    }
  }

  lemma IdentifierIsMaximal(out: Outside, s: string)
    requires Lex(out, s).0.Identifier?
    ensures var (tok, rest) := Lex(out, s);
            s == tok.name + rest && IsIdentifier(out, tok.name) && (rest != "" ==> !IdentifierPart(out, rest[0]))
  {
    IdentifierStops(out, s, 1);
  }

  lemma NumberIsMaximal(out: Outside, s: string)
    requires Lex(out, s).0.Number?
    ensures var (tok, rest) := Lex(out, s);
            && |rest| < |s| && s[|s| - |rest|..] == rest
            && (var text := s[..|s| - |rest|]; AllDigits(text) && Value(text) == tok.num)
            && (rest != "" ==> !IsDigit(rest[0]))
  {
    var base := if s[0] == '0' then Undecided else Decimal;
    var n := NumberEnd(s, 1, base);
    NumberStops(s, 1, base);
    assert forall j | 1 <= j < n :: s[j] == s[..n][j];
  }

  // ----- Writing selectors -----

  function Digits(n: nat): (s: string)
    ensures s != "" && AllDigits(s)
  {
    var d := ['0' + (n % 10) as char];
    if n < 10 then d else Digits(n / 10) + d
  }

  lemma {:induction false} DigitsValue(n: nat)
    ensures Value(Digits(n)) == n
  {
    var s := Digits(n);
    if n >= 10 {
      DigitsValue(n / 10);
      assert s[..|s| - 1] == Digits(n / 10);
    }
  }

  predicate IsIdentifier(out: Outside, s: string) {
    s != "" && IdentifierStart(out, s[0]) && forall i | 1 <= i < |s| :: IdentifierPart(out, s[i])
  }

  /** Needs no escapes between double quotes. */
  predicate IsPlain(s: string) {
    forall i | 0 <= i < |s| :: s[i] !in "\"\\\n\r\U{2028}\U{2029}"
  }

  function Quoted(s: string): string {
    "\"" + s + "\""
  }

  /** JavaScript takes a literal without escapes at its word. */
  ghost predicate ReadsPlain(out: Outside) {
    forall s | IsPlain(s) :: out.literal(Quoted(s)) == Some(s)
  }

  ghost predicate Printable(out: Outside, sel: Selector) {
    && Producible(sel)
    && (sel.Name? ==> IsIdentifier(out, sel.name) || IsPlain(sel.name))
    && (sel.List? ==> forall i | 0 <= i < |sel.list| && sel.list[i].Name? :: IsPlain(sel.list[i].name))
  }

  function PrintRange(r: Range): string
    requires ProducibleRange(r)
  {
    if r == RangeOf1(r.start) then Digits(r.start)
    else
      Digits(r.start) + (":" + (PrintEnd(r.afterEnd) + PrintStride(r.stride)))
  }

  function PrintEnd(end: Option<Int64>): string
    requires end.Some? ==> NonNegative(end.value)
  {
    if end.Some? then Digits(end.value) else ""
  }

  function PrintStride(stride: Int64): string
    requires NonNegative(stride)
  {
    if stride == 1 then "" else ":" + Digits(stride)
  }

  /** One member of a list. */
  function PrintMember(sel: Selector): string
    requires sel.Name? || (sel.Slice? && NonNegative(sel.range.start))
  {
    if sel.Name? then Quoted(sel.name) else Digits(sel.range.start)
  }

  predicate Members(l: seq<Selector>) {
    forall i | 0 <= i < |l| :: l[i].Name? || (l[i].Slice? && NonNegative(l[i].range.start))
  }

  /** The members from the second on, each after a comma. */
  function PrintMore(l: seq<Selector>): string
    requires Members(l)
  {
    if l == [] then "" else "," + PrintMember(l[0]) + PrintMore(l[1..])
  }

  function Print(out: Outside, sel: Selector): string
    requires Producible(sel)
  {
    match sel
    case Name(name) => if IsIdentifier(out, name) then "." + name else "[" + Quoted(name) + "]"
    case Slice(r) => "[" + PrintRange(r) + "]"
    case List(l) => "[" + PrintMember(l[0]) + PrintMore(l[1..]) + "]"
    case Recurse => ".."
    case EveryChild => ".*"
  }

  function PrintAll(out: Outside, p: Parsed): string
    requires AllProducible(p)
  {
    if p == [] then "" else Print(out, p[0]) + PrintAll(out, p[1..])
  }

  // ----- Reading tokens -----

  lemma LexSpecial(out: Outside, c: char, rest: string)
    requires c in "[]*,:"
    ensures Lex(out, [c] + rest) == (Special([c]), rest)
  {
    assert ([c] + rest)[..1] == [c];
  }

  lemma LexDot(out: Outside, rest: string)
    requires rest == "" || rest[0] != '.'
    ensures Lex(out, "." + rest) == (Special("."), rest)
  {
  }

  lemma LexDotDot(out: Outside, rest: string)
    ensures Lex(out, ".." + rest) == (Special(".."), rest)
  {
  }

  lemma {:induction false} IdentifierEndsAt(out: Outside, s: string, i: nat, n: nat)
    requires i <= n <= |s| && forall j | i <= j < n :: IdentifierPart(out, s[j])
    requires n < |s| ==> !IdentifierPart(out, s[n])
    ensures IdentifierEnd(out, s, i) == n
    decreases n - i
  {
    if i < n {
      IdentifierEndsAt(out, s, i + 1, n);
    }
  }

  lemma LexIdentifier(out: Outside, name: string, rest: string)
    requires IsIdentifier(out, name) && (rest == "" || !IdentifierPart(out, rest[0]))
    ensures Lex(out, name + rest) == (Identifier(name), rest)
  {
    var s := name + rest;
    IdentifierEndsAt(out, s, 1, |name|);
    assert s[0] == name[0] && s[0] !in "[]*,:";
    assert s[..|name|] == name && s[|name|..] == rest;
  }

  lemma {:induction false} NumberEndsAt(s: string, i: nat, n: nat, base: Base)
    requires base == Undecided || base == Decimal
    requires i <= n <= |s| && forall j | i <= j < n :: IsDigit(s[j])
    requires n < |s| ==> !IsDigit(s[n]) && s[n] != 'o' && s[n] != 'x'
    ensures NumberEnd(s, i, base) == n
    decreases n - i
  {
    if i < n {
      NumberEndsAt(s, i + 1, n, BaseAfter(base, s[i]));
    }
  }

  predicate EndsNumber(rest: string) {
    rest == "" || (!IsDigit(rest[0]) && rest[0] != 'o' && rest[0] != 'x')
  }

  lemma LexNumber(out: Outside, num: Int64, rest: string)
    requires NonNegative(num)
    requires EndsNumber(rest)
    ensures Lex(out, Digits(num) + rest) == (Number(num), rest)
  {
    var d := Digits(num);
    var s := d + rest;
    DigitsValue(num);
    NumberEndsAt(s, 1, |d|, if s[0] == '0' then Undecided else Decimal);
    assert s[0] == d[0] && s[0] !in "[]*,:" && s[0] != '.' && IsDigit(s[0]);
    assert s[..|d|] == d && s[|d|..] == rest;
  }

  lemma {:induction false} StringEndsAt(s: string, close: char, i: nat, n: nat)
    requires i <= n < |s| && s[n] == close && forall j | i <= j < n :: s[j] != close && s[j] != '\\'
    ensures StringEnd(s, close, i) == Some(n + 1)
    decreases n - i
  {
    if i < n {
      StringEndsAt(s, close, i + 1, n);
    }
  }

  lemma LexQuoted(out: Outside, value: string, rest: string)
    requires ReadsPlain(out) && IsPlain(value)
    ensures Lex(out, Quoted(value) + rest) == (StringToken(value), rest)
  {
    var q := Quoted(value);
    var s := q + rest;
    forall j | 1 <= j < |q| - 1
      ensures s[j] != '"' && s[j] != '\\'
    {
      assert s[j] == value[j - 1];
    }
    StringEndsAt(s, '"', 1, |q| - 1);
    assert s[0] == '"' && s[0] !in "[]*,:";
    assert s[..|q|] == q && s[|q|..] == rest;
  }

  // ----- Reading selectors -----

  lemma MoreText(l: seq<Selector>, tail: string)
    requires l != [] && Members(l)
    ensures PrintMore(l) + tail == [','] + (PrintMember(l[0]) + (PrintMore(l[1..]) + tail))
  {
    hide PrintMember;
  }

  /** A list goes on with a comma or ends with a bracket. */
  lemma MoreStart(l: seq<Selector>, tail: string)
    requires Members(l) && tail != "" && tail[0] == ']'
    ensures EndsNumber(PrintMore(l) + tail)
  {
    hide PrintMember;
  }

  lemma StringsStep(out: Outside, subs: seq<Selector>, l: seq<Selector>, tail: string)
    requires ReadsPlain(out) && subs != [] && l != [] && AllNames(l) && IsPlain(l[0].name)
    ensures ParseStrings(out, PrintMore(l) + tail, subs) == ParseStrings(out, PrintMore(l[1..]) + tail, subs + [l[0]])
  {
    hide Lex, PrintMore, ReadsPlain, IsPlain, OneOrList;
    MoreText(l, tail);
    var more := PrintMore(l[1..]) + tail;
    LexSpecial(out, ',', Quoted(l[0].name) + more);
    LexQuoted(out, l[0].name, more);
  }

  lemma NumbersStep(out: Outside, subs: seq<Selector>, l: seq<Selector>, tail: string)
    requires subs != [] && l != [] && AllIndices(l) && tail != "" && tail[0] == ']'
    ensures ParseNumbers(out, PrintMore(l) + tail, subs) == ParseNumbers(out, PrintMore(l[1..]) + tail, subs + [l[0]])
  {
    hide Lex, PrintMore, Digits, EndsNumber, OneOrList;
    MoreText(l, tail);
    MoreStart(l[1..], tail);
    var more, num := PrintMore(l[1..]) + tail, l[0].range.start;
    LexSpecial(out, ',', Digits(num) + more);
    LexNumber(out, num, more);
  }

  lemma ListEnds(out: Outside, subs: seq<Selector>, rest: string)
    requires subs != []
    ensures ParseStrings(out, "]" + rest, subs) == ParseNumbers(out, "]" + rest, subs) == Some((OneOrList(subs), rest))
  {
    LexSpecial(out, ']', rest);
    hide Lex;
  }

  lemma MoveOver(subs: seq<Selector>, l: seq<Selector>)
    requires l != []
    ensures subs + [l[0]] + l[1..] == subs + l
  {
  }

  lemma {:induction false} ReadStrings(out: Outside, subs: seq<Selector>, l: seq<Selector>, rest: string)
    requires ReadsPlain(out) && subs != [] && AllNames(l) && forall i | 0 <= i < |l| :: IsPlain(l[i].name)
    ensures ParseStrings(out, PrintMore(l) + ("]" + rest), subs) == Some((OneOrList(subs + l), rest))
    decreases |l|
  {
    hide ParseStrings, ReadsPlain, OneOrList, IsPlain;
    if l == [] {
      ListEnds(out, subs, rest);
      assert subs + l == subs && PrintMore(l) + ("]" + rest) == "]" + rest;
    } else {
      hide PrintMore;
      StringsStep(out, subs, l, "]" + rest);
      ReadStrings(out, subs + [l[0]], l[1..], rest);
      MoveOver(subs, l);
    }
  }

  lemma {:induction false} ReadNumbers(out: Outside, subs: seq<Selector>, l: seq<Selector>, rest: string)
    requires subs != [] && AllIndices(l)
    ensures ParseNumbers(out, PrintMore(l) + ("]" + rest), subs) == Some((OneOrList(subs + l), rest))
    decreases |l|
  {
    hide ParseNumbers, OneOrList;
    if l == [] {
      ListEnds(out, subs, rest);
      assert subs + l == subs && PrintMore(l) + ("]" + rest) == "]" + rest;
    } else {
      hide PrintMore;
      NumbersStep(out, subs, l, "]" + rest);
      ReadNumbers(out, subs + [l[0]], l[1..], rest);
      MoveOver(subs, l);
    }
  }

  lemma ReadName(out: Outside, name: string, rest: string, takeStar: bool)
    requires ReadsPlain(out) && (IsIdentifier(out, name) || IsPlain(name)) && (rest == "" || rest[0] in ".[")
    ensures ParseOne(out, Print(out, Name(name)) + rest, takeStar) == Some((Name(name), rest))
  {
    hide Lex, ParseStrings, ReadsPlain;
    if IsIdentifier(out, name) {
      assert Print(out, Name(name)) + rest == "." + (name + rest);
      LexDot(out, name + rest);
      LexIdentifier(out, name, rest);
    } else {
      assert Print(out, Name(name)) + rest == ['['] + (Quoted(name) + ("]" + rest));
      LexSpecial(out, '[', Quoted(name) + ("]" + rest));
      LexQuoted(out, name, "]" + rest);
      ListEnds(out, [Name(name)], rest);
    }
  }

  lemma ReadList(out: Outside, l: seq<Selector>, rest: string, takeStar: bool)
    requires ReadsPlain(out) && Printable(out, List(l))
    ensures ParseOne(out, Print(out, List(l)) + rest, takeStar) == Some((List(l), rest))
  {
    hide Lex, ParseStrings, ParseNumbers, PrintMore, ReadsPlain, Digits;
    var more := PrintMore(l[1..]) + ("]" + rest);
    assert Print(out, List(l)) + rest == ['['] + (PrintMember(l[0]) + more);
    LexSpecial(out, '[', PrintMember(l[0]) + more);
    assert [l[0]] + l[1..] == l;
    if AllNames(l) {
      LexQuoted(out, l[0].name, more);
      ReadStrings(out, [l[0]], l[1..], rest);
    } else {
      MoreText(l[1..], "]" + rest);
      LexNumber(out, l[0].range.start, more);
      LexSpecial(out, ',', PrintMember(l[1]) + (PrintMore(l[1..][1..]) + ("]" + rest)));
      ReadNumbers(out, [l[0]], l[1..], rest);
    }
  }

  lemma ReadStride(out: Outside, range: Range, stride: Int64, rest: string)
    requires NonNegative(stride) && range.stride == 1
    ensures ParseStride(out, PrintStride(stride) + ("]" + rest), range) == Some((Slice(range.(stride := stride)), rest))
  {
    hide Lex, Digits;
    LexSpecial(out, ']', rest);
    if stride == 1 {
      assert PrintStride(stride) + ("]" + rest) == "]" + rest;
    } else {
      assert PrintStride(stride) + ("]" + rest) == [':'] + (Digits(stride) + ("]" + rest));
      LexSpecial(out, ':', Digits(stride) + ("]" + rest));
      LexNumber(out, stride, "]" + rest);
    }
  }

  /** What follows the end of a range is a colon or a bracket. */
  lemma StrideStart(out: Outside, stride: Int64, rest: string)
    requires NonNegative(stride)
    ensures var s := PrintStride(stride) + ("]" + rest); s != "" && s[0] in ":]" && Lex(out, s).0.Special?
  {
  }

  lemma ReadEnd(out: Outside, start: Int64, end: Option<Int64>, stride: Int64, rest: string)
    requires NonNegative(stride) && (end.Some? ==> NonNegative(end.value))
    ensures ParseRange(out, PrintEnd(end) + (PrintStride(stride) + ("]" + rest)), start) ==
            Some((Slice(Range(start, end, stride)), rest))
  {
    hide Lex, Digits, PrintStride, ParseStride;
    var more := PrintStride(stride) + ("]" + rest);
    StrideStart(out, stride, rest);
    ReadStride(out, Range(start, end, 1), stride, rest);
    if end.Some? {
      LexNumber(out, end.value, more);
    } else {
      assert PrintEnd(end) + more == more;
    }
  }

  lemma ReadSlice(out: Outside, r: Range, rest: string, takeStar: bool)
    requires ProducibleRange(r)
    ensures ParseOne(out, Print(out, Slice(r)) + rest, takeStar) == Some((Slice(r), rest))
  {
    hide Lex, Digits, ParseNumbers, ParseRange, PrintEnd, PrintStride;
    if r == RangeOf1(r.start) {
      var more := "]" + rest;
      assert Print(out, Slice(r)) + rest == ['['] + (Digits(r.start) + more);
      LexSpecial(out, '[', Digits(r.start) + more);
      LexNumber(out, r.start, more);
      LexSpecial(out, ']', rest);
      ListEnds(out, [Slice(r)], rest);
    } else {
      var end := PrintEnd(r.afterEnd) + (PrintStride(r.stride) + ("]" + rest));
      assert Print(out, Slice(r)) + rest == ['['] + (Digits(r.start) + ([':'] + end));
      LexSpecial(out, '[', Digits(r.start) + ([':'] + end));
      LexNumber(out, r.start, [':'] + end);
      LexSpecial(out, ':', end);
      ReadEnd(out, r.start, r.afterEnd, r.stride, rest);
    }
  }

  lemma ReadOne(out: Outside, sel: Selector, rest: string, takeStar: bool)
    requires ReadsPlain(out) && Printable(out, sel) && (rest == "" || rest[0] in ".[")
    ensures ParseOne(out, Print(out, sel) + rest, takeStar) == Some((sel, rest))
  {
    hide Lex, ReadsPlain;
    match sel {
      case Name(name) => ReadName(out, name, rest, takeStar);
      case Slice(r) => ReadSlice(out, r, rest, takeStar);
      case List(l) => ReadList(out, l, rest, takeStar);
      case Recurse => LexDotDot(out, rest);
      case EveryChild =>
        assert Print(out, sel) + rest == "." + (['*'] + rest);
        LexDot(out, ['*'] + rest);
        LexSpecial(out, '*', rest);
    }
  }

  lemma PrintsStart(out: Outside, sel: Selector)
    requires Producible(sel)
    ensures Print(out, sel) != "" && Print(out, sel)[0] in ".["
  {
  }

  lemma AllPrintsStart(out: Outside, p: Parsed)
    requires AllProducible(p)
    ensures PrintAll(out, p) == "" || PrintAll(out, p)[0] in ".["
    ensures PrintAll(out, p) == "" <==> p == []
  {
    hide Print;
    if p != [] {
      PrintsStart(out, p[0]);
    }
  }

  ghost predicate AllPrintable(out: Outside, p: Parsed) {
    AllProducible(p) && forall i | 0 <= i < |p| :: Printable(out, p[i])
  }

  /** What has been written reads back as what it was written from. */
  lemma {:induction false} ReadAll(out: Outside, p: Parsed, takeStar: bool)
    requires ReadsPlain(out) && AllPrintable(out, p)
    ensures ParseAll(out, PrintAll(out, p), takeStar) == Some(p)
    decreases |p|
  {
    hide ParseOne, Printable, Print, Producible, ReadsPlain;
    AllPrintsStart(out, p);
    if p != [] {
      AllPrintsStart(out, p[1..]);
      ReadOne(out, p[0], PrintAll(out, p[1..]), takeStar);
      ReadAll(out, p[1..], p[0].Recurse?);
      assert [p[0]] + p[1..] == p;
    }
  }

  /** The whole round trip, from a list of selectors to text and back. */
  lemma RoundTrip(out: Outside, p: Parsed)
    requires ReadsPlain(out) && AllPrintable(out, p)
    ensures ParseTop(out, "$" + PrintAll(out, p)) == Some(p)
  {
    hide PrintAll, ParseAll, Lex, ReadsPlain, Printable, Producible;
    AllPrintsStart(out, p);
    LexIdentifier(out, "$", PrintAll(out, p));
    ReadAll(out, p, false);
  }
}
