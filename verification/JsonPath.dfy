/**
 The JSONPath expressions of pkg/jsonpath: the tokens of a source text (lexer.go) and the
 selectors that they spell (parser.go).
 */
module JsonPath {
  import opened Changes

  // ----- Characters -----

  /**
   What comes from outside: which characters beyond ASCII start or continue an identifier, and what
   a quoted literal, quotes included, stands for when it is read as JavaScript.
   */
  datatype Outside = Outside(start: char -> bool, part: char -> bool, literal: string -> Option<string>)

  predicate IsLetter(c: char) {
    'a' <= c <= 'z' || 'A' <= c <= 'Z'
  }

  predicate IsDigit(c: char) {
    '0' <= c <= '9'
  }

  predicate IdentifierStart(out: Outside, c: char) {
    c == '$' || c == '_' || if c < 128 as char then IsLetter(c) else out.start(c)
  }

  predicate IdentifierPart(out: Outside, c: char) {
    c == '$' || c == '_' || c == '\U{200C}' || c == '\U{200D}' ||
    if c < 128 as char then IsLetter(c) || IsDigit(c) else out.part(c)
  }

  // ----- Tokens -----

  datatype Token =
    | EndOfText
    | Special(text: string)
    | StringToken(value: string)
    | Identifier(name: string)
    | Number(num: Int64)
    | Bad

  const MAX_INT64: int := 0x7FFF_FFFF_FFFF_FFFF

  /** The integers of the program have 64 bits, with sign. */
  type Int64 = i: int | -MAX_INT64 - 1 <= i <= MAX_INT64

  /** The end of the identifier that has been scanned up to `i`. */
  function IdentifierEnd(out: Outside, s: string, i: nat): (n: nat)
    requires i <= |s|
    ensures i <= n <= |s|
    decreases |s| - i
  {
    if i < |s| && IdentifierPart(out, s[i]) then IdentifierEnd(out, s, i + 1) else i
  }

  datatype Base = Undecided | Decimal | Octal | Hex

  /** Undecided after a zero at the start: the next character tells. */
  function BaseAfter(base: Base, c: char): Base {
    if base != Undecided then base else if c == 'o' then Octal else if c == 'x' then Hex else Decimal
  }

  predicate InNumber(base: Base, c: char) {
    || (base == Undecided && (c == 'o' || c == 'x'))
    || '0' <= c < '8'
    || (base != Octal && (c == '8' || c == '9'))
    || (base == Hex && ('a' <= c <= 'f' || 'A' <= c <= 'F'))
  }

  /** The end of the number that has been scanned up to `i`. */
  function NumberEnd(s: string, i: nat, base: Base): (n: nat)
    requires i <= |s|
    ensures i <= n <= |s|
    decreases |s| - i
  {
    if i < |s| && InNumber(base, s[i]) then NumberEnd(s, i + 1, BaseAfter(base, s[i])) else i
  }

  predicate AllDigits(s: string) {
    forall i | 0 <= i < |s| :: IsDigit(s[i])
  }

  function Value(s: string): (n: nat)
    requires AllDigits(s)
  {
    if s == "" then 0 else 10 * Value(s[..|s| - 1]) + (s[|s| - 1] as int - '0' as int)
  }

  /** The text as a decimal number that fits in 64 bits with sign. */
  function ParseInt(s: string): Option<Int64> {
    if s != "" && AllDigits(s) && Value(s) <= MAX_INT64 then Some(Value(s)) else None
  }

  /** The end of the literal that has been scanned up to `i`, the closing quote included. */
  function StringEnd(s: string, close: char, i: nat): (n: Option<nat>)
    ensures n.Some? ==> i < n.value <= |s|
    decreases |s| - i
  {
    if i >= |s| then None
    else if s[i] == close then Some(i + 1)
    else if s[i] == '\\' then (if i + 1 >= |s| then None else StringEnd(s, close, i + 2))
    else StringEnd(s, close, i + 1)
  }

  /** The first token of a text, and the rest of the text. */
  function Lex(out: Outside, s: string): (r: (Token, string))
    ensures r.0 == EndOfText <==> s == ""
    ensures r.0 != EndOfText && r.0 != Bad ==> |r.1| < |s|
  {
    if s == "" then (EndOfText, "")
    else if s[0] in "[]*,:" then (Special(s[..1]), s[1..])
    else if s[0] == '.' then
      if |s| > 1 && s[1] == '.' then (Special(".."), s[2..]) else (Special("."), s[1..])
    else if IsDigit(s[0]) then
      var n := NumberEnd(s, 1, if s[0] == '0' then Undecided else Decimal);
      (match ParseInt(s[..n]) case Some(num) => Number(num) case None => Bad, s[n..])
    else if s[0] == '"' || s[0] == '\'' then
      match StringEnd(s, s[0], 1)
      case None => (Bad, "")
      case Some(n) => (match out.literal(s[..n]) case Some(value) => StringToken(value) case None => Bad, s[n..])
    else if IdentifierStart(out, s[0]) then
      var n := IdentifierEnd(out, s, 1);
      (Identifier(s[..n]), s[n..])
    else (Bad, s)
  }

  // ----- Selectors -----

  datatype Range = Range(start: Int64, afterEnd: Option<Int64>, stride: Int64)

  datatype Selector =
    | Name(name: string)
    | Slice(range: Range)
    | List(list: seq<Selector>)
    | Recurse
    | EveryChild

  type Parsed = seq<Selector>

  /** A sum of two such integers wraps around. */
  function Wrap64(i: int): Int64
    requires -2 * MAX_INT64 - 2 <= i <= 2 * MAX_INT64
  {
    if i > MAX_INT64 then i - 2 * MAX_INT64 - 2 else if i < -MAX_INT64 - 1 then i + 2 * MAX_INT64 + 2 else i
  }

  function RangeOf1(index: Int64): Range {
    Range(index, Some(Wrap64(index + 1)), 1)
  }

  /** What has been read, and the rest of the text. */
  type Reading = Option<(Selector, string)>

  function ParseTop(out: Outside, s: string): Option<Parsed> {
    match Lex(out, s)
    case (Identifier(name), rest) => if name == "$" then ParseAll(out, rest, false) else None
    case _ => None
  }

  /** `takeStar` tells that the selector before is `..`. */
  function ParseAll(out: Outside, s: string, takeStar: bool): Option<Parsed>
    decreases |s|
  {
    if s == "" then Some([])
    else
      match ParseOne(out, s, takeStar)
      case None => None
      case Some((sel, rest)) =>
        match ParseAll(out, rest, sel.Recurse?)
        case None => None
        case Some(more) => Some([sel] + more)
  }

  function ParseOne(out: Outside, s: string, takeStar: bool): (r: Reading)
    ensures r.Some? ==> |r.value.1| < |s|
  {
    var (tok, rest) := Lex(out, s);
    if tok == Special(".") then ParseDot(out, rest)
    else if tok == Special("[") then ParseBracket(out, rest)
    else if tok == Special("..") then Some((Recurse, rest))
    else if tok == Special("*") && takeStar then Some((EveryChild, rest))
    else None
  }

  function ParseDot(out: Outside, s: string): (r: Reading)
    ensures r.Some? ==> |r.value.1| < |s|
  {
    match Lex(out, s)
    case (Special(text), rest) => if text == "*" then Some((EveryChild, rest)) else None
    case (Identifier(name), rest) => Some((Name(name), rest))
    case (Number(num), rest) => Some((Slice(RangeOf1(num)), rest))
    case _ => None
  }

  function ParseBracket(out: Outside, s: string): (r: Reading)
    ensures r.Some? ==> |r.value.1| < |s|
  {
    match Lex(out, s)
    case (Special(text), rest) =>
      if text == "*" then ParseClose(out, rest, EveryChild)
      else if text == ":" then ParseRange(out, rest, 0)
      else None
    case (Number(num), rest) => ParseNumeric(out, rest, num)
    case (StringToken(value), rest) => ParseStrings(out, rest, [Name(value)])
    case _ => None
  }

  function ParseClose(out: Outside, s: string, sel: Selector): (r: Reading)
    ensures r.Some? ==> |r.value.1| < |s|
  {
    var (tok, rest) := Lex(out, s);
    if tok == Special("]") then Some((sel, rest)) else None
  }

  function OneOrList(subs: seq<Selector>): Selector
    requires subs != []
  {
    if |subs| == 1 then subs[0] else List(subs)
  }

  /** More strings, after at least one. */
  function ParseStrings(out: Outside, s: string, subs: seq<Selector>): (r: Reading)
    requires subs != []
    ensures r.Some? ==> |r.value.1| < |s|
    decreases |s|
  {
    var (tok, rest) := Lex(out, s);
    if tok == Special("]") then Some((OneOrList(subs), rest))
    else if tok != Special(",") then None
    else
      match Lex(out, rest)
      case (StringToken(value), rest') => ParseStrings(out, rest', subs + [Name(value)])
      case _ => None
  }

  function ParseNumeric(out: Outside, s: string, num: Int64): (r: Reading)
    ensures r.Some? ==> |r.value.1| < |s|
  {
    var (tok, rest) := Lex(out, s);
    if tok == Special(":") then ParseRange(out, rest, num) else ParseNumbers(out, s, [Slice(RangeOf1(num))])
  }

  /** More numbers, after at least one. */
  function ParseNumbers(out: Outside, s: string, subs: seq<Selector>): (r: Reading)
    requires subs != []
    ensures r.Some? ==> |r.value.1| < |s|
    decreases |s|
  {
    var (tok, rest) := Lex(out, s);
    if tok == Special("]") then Some((OneOrList(subs), rest))
    else if tok != Special(",") then None
    else
      match Lex(out, rest)
      case (Number(num), rest') => ParseNumbers(out, rest', subs + [Slice(RangeOf1(num))])
      case _ => None
  }

  /** A range, after its first colon. */
  function ParseRange(out: Outside, s: string, start: Int64): (r: Reading)
    ensures r.Some? ==> |r.value.1| < |s|
  {
    match Lex(out, s)
    case (Number(num), rest) => ParseStride(out, rest, Range(start, Some(num), 1))
    case _ => ParseStride(out, s, Range(start, None, 1))
  }

  /** A range, after its end if any. */
  function ParseStride(out: Outside, s: string, range: Range): (r: Reading)
    ensures r.Some? ==> |r.value.1| < |s|
  {
    var (tok, rest) := Lex(out, s);
    if tok == Special("]") then Some((Slice(range), rest))
    else if tok != Special(":") then None
    else
      match Lex(out, rest)
      case (Special(text), rest') => if text == "]" then Some((Slice(range), rest')) else None
      case (Number(num), rest') => ParseClose(out, rest', Slice(range.(stride := num)))
      case _ => None
  }
}
