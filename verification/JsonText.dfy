/**
 JSON texts in the grammar of RFC 8259 (sections 2 to 7) as syntax trees, what they mean to the parser,
 and the proof that the parser reads every one of them.
 */
module JsonText {
  import opened Json
  import opened Sequences

  // ----- syntax -----

  /** One character of a string: itself, a two-character escape, or \u and four hexadecimal digits. */
  datatype StringChar = Plain(c: char) | Esc(e: char) | Unicode(hex: string)

  datatype Exponent = Exponent(e: char, sign: string, digits: string)

  datatype Number = Number(minus: bool, digits: string, fractions: seq<string>, exponents: seq<Exponent>)

  /** A value with the white space written inside it. */
  datatype Syntax =
    | NullText
    | BoolText(b: bool)
    | NumberText(n: Number)
    | StringText(cs: seq<StringChar>)
    | ArrayText(blank: string, elems: seq<Element>)
    | ObjectText(blank: string, members: seq<Member>)

  datatype Element = Element(before: string, value: Syntax, after: string)

  datatype Member = Member(before: string, key: seq<StringChar>, colonBefore: string, colonAfter: string,
                           value: Syntax, after: string)

  // ----- well-formedness -----

  /** Section 2 allows four white space characters; the parser also takes vertical tab and form feed. */
  predicate White(ws: string) {
    forall i | 0 <= i < |ws| :: IsSpace(ws[i])
  }

  predicate IsHex(c: char) {
    IsDigit(c) || 'a' <= c <= 'f' || 'A' <= c <= 'F'
  }

  /** Section 7 also keeps raw control characters out of strings; the parser takes them. */
  predicate GoodChar(ch: StringChar) {
    match ch
    case Plain(c) => c != '"' && c != '\\'
    case Esc(e) => e in "\"\\/bfnrt"
    case Unicode(hex) => |hex| == 4 && forall i | 0 <= i < 4 :: IsHex(hex[i])
  }

  predicate GoodString(cs: seq<StringChar>) {
    forall i | 0 <= i < |cs| :: GoodChar(cs[i])
  }

  predicate GoodExponent(x: Exponent) {
    (x.e == 'e' || x.e == 'E') && x.sign in ["", "+", "-"] && x.digits != "" && AllDigits(x.digits)
  }

  predicate GoodNumber(n: Number) {
    && n.digits != "" && AllDigits(n.digits) && (n.digits[0] == '0' ==> |n.digits| == 1)
    && |n.fractions| <= 1 && (forall i | 0 <= i < |n.fractions| :: n.fractions[i] != "" && AllDigits(n.fractions[i]))
    && |n.exponents| <= 1 && (forall i | 0 <= i < |n.exponents| :: GoodExponent(n.exponents[i]))
  }

  predicate Good(t: Syntax) {
    match t
    case NullText => true
    case BoolText(_) => true
    case NumberText(n) => GoodNumber(n)
    case StringText(cs) => GoodString(cs)
    case ArrayText(blank, elems) => White(blank) && GoodElements(elems)
    case ObjectText(blank, members) => White(blank) && GoodMembers(members)
  }

  predicate GoodElements(es: seq<Element>) {
    es != [] ==> White(es[0].before) && Good(es[0].value) && White(es[0].after) && GoodElements(es[1..])
  }

  predicate GoodMembers(ms: seq<Member>) {
    ms != [] ==>
      && White(ms[0].before) && GoodString(ms[0].key) && White(ms[0].colonBefore) && White(ms[0].colonAfter)
      && Good(ms[0].value) && White(ms[0].after) && GoodMembers(ms[1..])
  }

  // ----- the parser's own, wider grammar -----

  /** Any character may be escaped, and any four may follow \u. */
  predicate LooseChar(ch: StringChar) {
    match ch
    case Plain(c) => c != '"' && c != '\\'
    case Esc(e) => e != 'u'
    case Unicode(hex) => |hex| == 4
  }

  predicate LooseString(cs: seq<StringChar>) {
    forall i | 0 <= i < |cs| :: LooseChar(cs[i])
  }

  predicate LooseExponent(x: Exponent) {
    (x.e == 'e' || x.e == 'E') && x.sign in ["", "+", "-"] && AllDigits(x.digits)
  }

  /** A minus sign or a digit, and then any parts of a number, empty or not. */
  predicate LooseNumber(n: Number) {
    && AllDigits(n.digits) && (n.minus || n.digits != "")
    && |n.fractions| <= 1 && (forall i | 0 <= i < |n.fractions| :: AllDigits(n.fractions[i]))
    && |n.exponents| <= 1 && (forall i | 0 <= i < |n.exponents| :: LooseExponent(n.exponents[i]))
  }

  predicate Loose(t: Syntax) {
    match t
    case NullText => true
    case BoolText(_) => true
    case NumberText(n) => LooseNumber(n)
    case StringText(cs) => LooseString(cs)
    case ArrayText(blank, elems) => White(blank) && LooseElements(elems)
    case ObjectText(blank, members) => White(blank) && LooseMembers(members)
  }

  predicate LooseElements(es: seq<Element>) {
    es != [] ==> White(es[0].before) && Loose(es[0].value) && White(es[0].after) && LooseElements(es[1..])
  }

  predicate LooseMember(m: Member) {
    White(m.before) && LooseString(m.key) && White(m.colonBefore) && White(m.colonAfter) && Loose(m.value) && White(m.after)
  }

  predicate LooseMembers(ms: seq<Member>) {
    ms != [] ==> LooseMember(ms[0]) && LooseMembers(ms[1..])
  }

  lemma GoodNumberLoose(n: Number)
    requires GoodNumber(n)
    ensures LooseNumber(n)
  {
    hide AllDigits;
  }

  lemma GoodStringLoose(cs: seq<StringChar>)
    requires GoodString(cs)
    ensures LooseString(cs)
  {
    forall i | 0 <= i < |cs|
      ensures LooseChar(cs[i])
    {
      assert GoodChar(cs[i]);
    }
  }

  /** The grammar of the RFC is part of it. */
  lemma {:induction false} GoodLoose(t: Syntax)
    requires Good(t)
    ensures Loose(t)
    decreases t, 1
  {
    hide GoodNumber, GoodString, White;
    match t
    case NumberText(n) => GoodNumberLoose(n);
    case StringText(cs) => GoodStringLoose(cs);
    case ArrayText(_, elems) => GoodElementsLoose(elems);
    case ObjectText(_, members) => GoodMembersLoose(members);
    case _ =>
  }

  lemma {:induction false} GoodElementsLoose(es: seq<Element>)
    requires GoodElements(es)
    ensures LooseElements(es)
    decreases es, 0
  {
    hide White, Good, Loose;
    if es != [] {
      GoodLoose(es[0].value);
      GoodElementsLoose(es[1..]);
    }
  }

  lemma {:induction false} GoodMembersLoose(ms: seq<Member>)
    requires GoodMembers(ms)
    ensures LooseMembers(ms)
    decreases ms, 0
  {
    hide White, Good, Loose, GoodString, LooseString;
    if ms != [] {
      GoodLoose(ms[0].value);
      GoodStringLoose(ms[0].key);
      GoodMembersLoose(ms[1..]);
    }
  }

  // ----- text -----

  function CharText(ch: StringChar): string {
    match ch
    case Plain(c) => [c]
    case Esc(e) => ['\\', e]
    case Unicode(hex) => "\\u" + hex
  }

  function CharsText(cs: seq<StringChar>): string {
    if cs == [] then "" else CharText(cs[0]) + CharsText(cs[1..])
  }

  function Quoted(cs: seq<StringChar>): string {
    "\"" + CharsText(cs) + "\""
  }

  function FractionText(fs: seq<string>): string {
    if fs == [] then "" else "." + fs[0]
  }

  function ExponentText(xs: seq<Exponent>): string {
    if xs == [] then "" else [xs[0].e] + xs[0].sign + xs[0].digits
  }

  function SignedDigits(n: Number): string {
    (if n.minus then "-" else "") + n.digits
  }

  function NumberLexeme(n: Number): string {
    SignedDigits(n) + (FractionText(n.fractions) + ExponentText(n.exponents))
  }

  function Text(t: Syntax): string {
    match t
    case NullText => "null"
    case BoolText(b) => if b then "true" else "false"
    case NumberText(n) => NumberLexeme(n)
    case StringText(cs) => Quoted(cs)
    case ArrayText(blank, elems) => "[" + (if elems == [] then blank else ElementsText(elems)) + "]"
    case ObjectText(blank, members) => "{" + (if members == [] then blank else MembersText(members)) + "}"
  }

  function ElementsText(es: seq<Element>): string {
    if es == [] then ""
    else es[0].before + Text(es[0].value) + es[0].after + (if |es| == 1 then "" else "," + ElementsText(es[1..]))
  }

  function MembersText(ms: seq<Member>): string {
    if ms == [] then ""
    else
      ms[0].before + KeyText(ms[0]) + Text(ms[0].value) + ms[0].after
      + (if |ms| == 1 then "" else "," + MembersText(ms[1..]))
  }

  /** The key of a member, up to the value. */
  function KeyText(m: Member): string {
    Quoted(m.key) + m.colonBefore + ":" + m.colonAfter
  }

  // ----- meaning -----

  /** What the parser makes of a character. */
  function Decoded(ch: StringChar): char {
    match ch
    case Plain(c) => c
    case Esc(e) => Unescape(e)
    case Unicode(_) => '?'
  }

  function Decode(cs: seq<StringChar>): string {
    if cs == [] then "" else [Decoded(cs[0])] + Decode(cs[1..])
  }

  /** Whole numbers become integers; with a fraction or an exponent the lexeme is kept for atof. */
  function NumberNode(n: Number): JsonNode {
    if n.fractions == [] && n.exponents == [] then Int(Atoll(SignedDigits(n))) else Double(NumberLexeme(n))
  }

  function Value(t: Syntax): JsonNode {
    match t
    case NullText => Null
    case BoolText(b) => Bool(b)
    case NumberText(n) => NumberNode(n)
    case StringText(cs) => String(Decode(cs))
    case ArrayText(_, elems) => Array(ElementValues(elems))
    case ObjectText(_, members) => Object(MemberMap(members, map[]))
  }

  function ElementValues(es: seq<Element>): seq<JsonNode> {
    if es == [] then [] else [Value(es[0].value)] + ElementValues(es[1..])
  }

  function MemberMap(ms: seq<Member>, acc: map<string, JsonNode>): map<string, JsonNode> {
    if ms == [] then acc else MemberMap(ms[1..], acc[Decode(ms[0].key) := Value(ms[0].value)])
  }

  // ----- lexical completeness -----

  lemma {:induction false} SkipWhite(ws: string, t: string)
    requires White(ws)
    ensures SkipWs(ws + t) == SkipWs(t)
  {
    if ws == "" {
      assert ws + t == t;
    } else {
      assert (ws + t)[1..] == ws[1..] + t;
      SkipWhite(ws[1..], t);
    }
  }

  lemma SkipNone(t: string)
    requires t != "" ==> !IsSpace(t[0])
    ensures SkipWs(t) == t
  {
  }

  lemma ExpectFound(ws: string, c: char, t: string)
    requires White(ws) && c != '\0' && !IsSpace(c)
    ensures Expect(ws + [c] + t, c) == Ok((), t)
  {
    assert ws + [c] + t == ws + ([c] + t);
    SkipWhite(ws, [c] + t);
    SkipNone([c] + t);
    assert ([c] + t)[1..] == t;
  }

  lemma StringBodyStep(ch: StringChar, t: string)
    requires LooseChar(ch)
    ensures var r := StringBody(t);
            StringBody(CharText(ch) + t) == ([Decoded(ch)] + r.0, r.1)
  {
    var u := CharText(ch) + t;
    match ch
    case Plain(c) =>
      assert u[1..] == t;
    case Esc(e) =>
      assert e != 'u';
      assert u[2..] == t;
    case Unicode(hex) =>
      assert u[0] == '\\' && u[1] == 'u';
      assert u[2 + Min(4, |u| - 2)..] == t;
  }

  lemma {:induction false} StringBodyComplete(cs: seq<StringChar>, t: string)
    requires LooseString(cs)
    ensures StringBody(CharsText(cs) + "\"" + t) == (Decode(cs), "\"" + t)
  {
    hide LooseChar, CharText, Decoded;
    if cs == [] {
      assert CharsText(cs) + "\"" + t == "\"" + t;
    } else {
      var more := CharsText(cs[1..]) + "\"" + t;
      hide StringBody;
      StringBodyComplete(cs[1..], t);
      StringBodyStep(cs[0], more);
      assert CharsText(cs) + "\"" + t == CharText(cs[0]) + more;
    }
  }

  lemma StringComplete(ws: string, cs: seq<StringChar>, t: string)
    requires White(ws) && LooseString(cs)
    ensures ParseString(ws + Quoted(cs) + t) == Ok(Decode(cs), t)
  {
    hide Expect, StringBody, LooseString, Decode, CharsText;
    var more := CharsText(cs) + "\"" + t;
    assert ws + Quoted(cs) + t == ws + ['"'] + more;
    ExpectFound(ws, '"', more);
    StringBodyComplete(cs, t);
    assert "" + ['"'] + t == "\"" + t;
    assert White("");
    ExpectFound("", '"', t);
  }

  // ----- numbers -----

  predicate NoDigitFirst(t: string) {
    t == "" || !IsDigit(t[0])
  }

  /** Nothing that would continue any number. */
  predicate EndsNumber(t: string) {
    NoDigitFirst(t) && Peek(t) != '.' && Peek(t) != 'e' && Peek(t) != 'E'
  }

  /** Nothing that would continue this number. */
  predicate Delimited(n: Number, t: string) {
    && NoDigitFirst(t)
    && (n.exponents == [] ==> Peek(t) != 'e' && Peek(t) != 'E' && (n.fractions == [] ==> Peek(t) != '.'))
    && (n.exponents != [] && n.exponents[0].sign == n.exponents[0].digits == "" ==> Peek(t) != '+' && Peek(t) != '-')
  }

  lemma GoodDelimited(n: Number, t: string)
    requires GoodNumber(n) && EndsNumber(t)
    ensures Delimited(n, t)
  {
    hide AllDigits;
    assert n.exponents != [] ==> GoodExponent(n.exponents[0]);
  }

  lemma {:induction false} DigitCountExact(d: string, t: string)
    requires AllDigits(d) && NoDigitFirst(t)
    ensures DigitCount(d + t) == |d|
  {
    if d == "" {
      assert d + t == t;
    } else {
      assert (d + t)[1..] == d[1..] + t;
      DigitCountExact(d[1..], t);
    }
  }

  lemma IntegerExact(n: Number, t: string)
    requires LooseNumber(n) && NoDigitFirst(t)
    ensures IntegerLength(SignedDigits(n) + t) == |SignedDigits(n)|
    ensures Peek(SignedDigits(n) + t) == '-' || IsDigit(Peek(SignedDigits(n) + t))
  {
    hide DigitCount;
    var u := SignedDigits(n) + t;
    if n.minus {
      assert u[1..] == n.digits + t;
    } else {
      assert u[0..] == n.digits + t;
    }
    DigitCountExact(n.digits, t);
    if n.digits != "" {
      FirstIsDigit(n.digits);
    }
  }

  lemma FractionExact(fs: seq<string>, t: string)
    requires |fs| <= 1 && (forall i | 0 <= i < |fs| :: AllDigits(fs[i])) && NoDigitFirst(t) && (fs == [] ==> Peek(t) != '.')
    ensures FractionLength(FractionText(fs) + t) == |FractionText(fs)|
    ensures NoDigitFirst(FractionText(fs) + t)
  {
    hide DigitCount;
    var u := FractionText(fs) + t;
    if fs == [] {
      assert u == t;
    } else {
      assert u[1..] == fs[0] + t;
      DigitCountExact(fs[0], t);
    }
  }

  lemma ExponentExact(n: Number, t: string)
    requires LooseNumber(n) && Delimited(n, t)
    ensures var x := ExponentText(n.exponents);
            && ExponentLength(x + t) == |x| && NoDigitFirst(x + t)
            && (n.fractions == [] ==> Peek(x + t) != '.')
  {
    hide AllDigits;
    if n.exponents == [] {
      assert ExponentText(n.exponents) + t == t;
    } else {
      assert LooseExponent(n.exponents[0]);
      OneExponent(n.exponents[0], t);
      hide ExponentLength, LooseExponent;
    }
  }

  lemma OneExponent(x: Exponent, t: string)
    requires LooseExponent(x) && NoDigitFirst(t) && (x.sign == x.digits == "" ==> Peek(t) != '+' && Peek(t) != '-')
    ensures ExponentLength([x.e] + x.sign + x.digits + t) == 1 + |x.sign| + |x.digits|
  {
    hide DigitCount, AllDigits;
    var u := [x.e] + x.sign + x.digits + t;
    DigitCountExact(x.digits, t);
    if x.sign == "" {
      assert u[1..] == x.digits + t;
      if x.digits != "" {
        FirstIsDigit(x.digits);
      }
    } else {
      assert u[2..] == x.digits + t;
      assert u[1..] == x.sign + (x.digits + t);
    }
  }

  lemma FirstIsDigit(d: string)
    requires d != "" && AllDigits(d)
    ensures IsDigit(d[0])
  {
  }

  lemma ThreeParts(i: string, f: string, e: string, t: string)
    ensures var u := i + (f + e) + t;
            && u == i + (f + (e + t)) && u[|i|..] == f + (e + t) && u[|i| + |f|..] == e + t
            && u[|i| + |f| + |e|..] == t && u[..|i| + |f| + |e|] == i + (f + e)
  {
    var u := i + (f + e) + t;
    assert u == i + (f + (e + t));
    assert u[|i| + |f|..] == e + t;
  }

  lemma NumberComplete(n: Number, t: string)
    requires LooseNumber(n) && Delimited(n, t)
    ensures var u := NumberLexeme(n) + t;
            && (Peek(u) == '-' || IsDigit(Peek(u)))
            && ParseNumber(u) == Ok(NumberNode(n), t)
  {
    hide DigitCount, Atoll, IntegerLength, FractionLength, ExponentLength, AllDigits, IsDigit, NoDigitFirst;
    var i, f, e := SignedDigits(n), FractionText(n.fractions), ExponentText(n.exponents);
    var u := NumberLexeme(n) + t;
    ExponentExact(n, t);
    FractionExact(n.fractions, e + t);
    IntegerExact(n, f + (e + t));
    hide SignedDigits, LooseNumber, Delimited, FractionText, ExponentText;
    ThreeParts(i, f, e, t);
    if n.fractions == [] && n.exponents == [] {
      WholeLexeme(n);
    } else {
      LongLexeme(n);
    }
  }

  lemma WholeLexeme(n: Number)
    requires n.fractions == [] && n.exponents == []
    ensures NumberLexeme(n) == SignedDigits(n) && FractionText(n.fractions) == ExponentText(n.exponents) == ""
  {
    assert SignedDigits(n) + ("" + "") == SignedDigits(n);
  }

  /** A fraction or an exponent is not empty, so the number is a double. */
  lemma LongLexeme(n: Number)
    requires n.fractions != [] || n.exponents != []
    ensures |FractionText(n.fractions)| > 0 || |ExponentText(n.exponents)| > 0
  {
  }

  // ----- values -----

  lemma ValueSkips(ws: string, u: string)
    requires White(ws)
    ensures ParseValue(ws + u) == ParseValue(u)
  {
    hide ParseString, ParseObject, ParseArray, ParseBool, ParseNull, ParseNumber;
    SkipWhite(ws, u);
    SkipWhite("", u);
    assert "" + u == u;
    SkipIdempotent(u);
  }

  lemma {:induction false} SkipIdempotent(t: string)
    ensures SkipWs(SkipWs(t)) == SkipWs(t)
  {
    if t != "" && IsSpace(t[0]) {
      SkipIdempotent(t[1..]);
    }
  }

  lemma LiteralComplete(t: Syntax, rest: string)
    requires t.NullText? || t.BoolText?
    ensures ParseValue(Text(t) + rest) == Ok(Value(t), rest)
  {
    var u := Text(t) + rest;
    SkipNone(u);
    match t
    case NullText =>
      assert u[..4] == "null" && u[4..] == rest;
    case BoolText(b) =>
      if b {
        assert u[..4] == "true" && u[4..] == rest;
      } else {
        assert u[0] == 'f' && u[..5] == "false" && u[5..] == rest;
      }
  }

  lemma NumberValueComplete(n: Number, rest: string)
    requires LooseNumber(n) && Delimited(n, rest)
    ensures ParseValue(NumberLexeme(n) + rest) == Ok(NumberNode(n), rest)
  {
    hide ParseNumber, ParseString, ParseObject, ParseArray, ParseBool, ParseNull, NumberNode, NumberLexeme;
    NumberComplete(n, rest);
    SkipNone(NumberLexeme(n) + rest);
  }

  lemma StringValueComplete(cs: seq<StringChar>, rest: string)
    requires LooseString(cs)
    ensures ParseValue(Quoted(cs) + rest) == Ok(String(Decode(cs)), rest)
  {
    hide ParseNumber, ParseString, ParseObject, ParseArray, ParseBool, ParseNull, LooseString, Decode;
    var u := Quoted(cs) + rest;
    StringComplete("", cs, rest);
    assert "" + Quoted(cs) + rest == u;
    assert u[0] == '"';
    SkipNone(u);
  }

  lemma AfterValue(after: string, c: char, t: string)
    requires White(after) && (c == ',' || c == ']' || c == '}')
    ensures EndsNumber(after + [c] + t)
    ensures forall n: Number :: Delimited(n, after + [c] + t)
    ensures SkipWs(after + [c] + t) == [c] + t
  {
    assert after + [c] + t == after + ([c] + t);
    SkipWhite(after, [c] + t);
    SkipNone([c] + t);
    if after != "" {
      assert IsSpace(after[0]);
    }
  }

  lemma {:induction false} ValueComplete(t: Syntax, ws: string, rest: string)
    requires Loose(t) && White(ws) && (t.NumberText? ==> Delimited(t.n, rest))
    ensures ParseValue(ws + Text(t) + rest) == Ok(Value(t), rest)
    decreases t, 1
  {
    hide ParseValue, ParseArray, ParseObject, White, LooseNumber, LooseString, NumberLexeme, NumberNode, Quoted, Decode;
    assert ws + Text(t) + rest == ws + (Text(t) + rest);
    ValueSkips(ws, Text(t) + rest);
    match t
    case NullText => LiteralComplete(t, rest);
    case BoolText(_) => LiteralComplete(t, rest);
    case NumberText(n) => NumberValueComplete(n, rest);
    case StringText(cs) => StringValueComplete(cs, rest);
    case ArrayText(blank, elems) =>
      if elems != [] {
        ElementsComplete(elems, [], rest);
        assert [] + ElementValues(elems) == ElementValues(elems);
      }
      ArrayShell(blank, elems, rest);
    case ObjectText(blank, members) =>
      if members != [] {
        MembersComplete(members, map[], rest);
      }
      ObjectShell(blank, members, rest);
  }

  lemma Regroup(a: string, b: string, c: string, d: string, e: string)
    ensures a + b + c + d + e == a + b + (c + (d + e))
    ensures a + b + c + d + e == a + (b + (c + (d + e)))
  {
    assert a + b + c + d + e == a + b + (c + (d + e));
  }

  lemma NotBlank(es: seq<Element>, rest: string)
    requires es != [] && LooseElements(es)
    ensures var u := ElementsText(es) + "]" + rest;
            SkipWs(u) != "" && Peek(SkipWs(u)) != ']'
  {
    hide Loose, Text, SkipWs, White;
    var e := es[0];
    var more := if |es| == 1 then "" else "," + ElementsText(es[1..]);
    var tail := e.after + (more + ("]" + rest));
    Regroup(e.before, Text(e.value), e.after, more, "]" + rest);
    assert ElementsText(es) + "]" + rest == ElementsText(es) + ("]" + rest);
    hide ElementsText;
    SkipWhite(e.before, Text(e.value) + tail);
    FirstChar(e.value);
    SkipNone(Text(e.value) + tail);
  }

  /** No value begins with white space or a closing bracket. */
  lemma FirstChar(t: Syntax)
    requires Loose(t)
    ensures Text(t) != "" && !IsSpace(Text(t)[0]) && Text(t)[0] != ']' && Text(t)[0] != '}'
  {
    hide LooseElements, LooseMembers, ElementsText, MembersText, CharsText;
    match t
    case NumberText(n) =>
      if !n.minus {
        FirstIsDigit(n.digits);
      }
    case _ =>
  }

  /** The brackets around the elements. */
  lemma ArrayShell(blank: string, elems: seq<Element>, rest: string)
    requires White(blank) && LooseElements(elems)
    requires elems != [] ==>
               ParseElements(ElementsText(elems) + "]" + rest, []) == Ok(Array(ElementValues(elems)), rest)
    ensures ParseValue(Text(ArrayText(blank, elems)) + rest) == Ok(Array(ElementValues(elems)), rest)
  {
    hide ParseElements, ElementsText, ParseObject, ParseBool, ParseNull, ParseString, ParseNumber, Expect, LooseElements;
    var u := Text(ArrayText(blank, elems)) + rest;
    var inner := (if elems == [] then blank else ElementsText(elems)) + "]" + rest;
    assert u == "" + ['['] + inner;
    SkipNone(u);
    ExpectFound("", '[', inner);
    if elems == [] {
      AfterValue(blank, ']', rest);
    } else {
      NotBlank(elems, rest);
      ElementsSkip(inner, []);
    }
  }

  /** White space before the first element is skipped twice over. */
  lemma ElementsSkip(t: string, acc: seq<JsonNode>)
    requires SkipWs(t) != ""
    ensures ParseElements(SkipWs(t), acc) == ParseElements(t, acc)
  {
    ValueOfSkipped(t);
    hide ParseValue, SkipWs;
  }

  lemma ValueOfSkipped(t: string)
    ensures ParseValue(SkipWs(t)) == ParseValue(t)
  {
    hide ParseString, ParseObject, ParseArray, ParseBool, ParseNull, ParseNumber;
    SkipIdempotent(t);
  }

  function ElementsTail(es: seq<Element>, rest: string): string
    requires es != []
  {
    if |es| == 1 then "]" + rest else "," + (ElementsText(es[1..]) + "]" + rest)
  }

  lemma ElementsSplit(es: seq<Element>, rest: string)
    requires es != []
    ensures var e := es[0];
            ElementsText(es) + "]" + rest == e.before + Text(e.value) + (e.after + ElementsTail(es, rest))
  {
    hide Text;
    var e, end := es[0], "]" + rest;
    var more := if |es| == 1 then "" else "," + ElementsText(es[1..]);
    Regroup(e.before, Text(e.value), e.after, more, end);
    assert ElementsText(es) == e.before + Text(e.value) + e.after + more;
    hide ElementsText;
    JoinTail(ElementsText(es), more, ElementsText(es[1..]), "]", rest, |es| == 1);
  }

  /** What follows a last item, or an item and a comma. */
  lemma JoinTail(all: string, more: string, others: string, close: string, rest: string, last: bool)
    requires more == if last then "" else "," + others
    ensures all + close + rest == all + (close + rest)
    ensures more + (close + rest) == if last then close + rest else "," + (others + close + rest)
  {
    if last {
      assert "" + (close + rest) == close + rest;
    } else {
      assert ("," + others) + (close + rest) == "," + (others + close + rest);
    }
  }

  lemma ValuesCons(es: seq<Element>, acc: seq<JsonNode>)
    requires es != []
    ensures acc + [Value(es[0].value)] + ElementValues(es[1..]) == acc + ElementValues(es)
    ensures |es| == 1 ==> ElementValues(es) == [Value(es[0].value)]
  {
    hide Value;
    var v, vs := Value(es[0].value), ElementValues(es[1..]);
    assert ElementValues(es) == [v] + vs;
    assert |es| == 1 ==> vs == [];
    hide ElementValues;
    NodesAssoc(acc, [v], vs);
  }

  lemma NodesAssoc(a: seq<JsonNode>, b: seq<JsonNode>, c: seq<JsonNode>)
    ensures a + b + c == a + (b + c)
  {
  }

  lemma {:induction false} ElementsComplete(es: seq<Element>, acc: seq<JsonNode>, rest: string)
    requires es != [] && LooseElements(es)
    ensures ParseElements(ElementsText(es) + "]" + rest, acc) == Ok(Array(acc + ElementValues(es)), rest)
    decreases es, 0
  {
    hide ParseValue, SkipWs, White, Delimited, Loose, ElementsText, Text, ParseElements, ElementValues, Value;
    var e := es[0];
    var last := |es| == 1;
    var more := if last then rest else ElementsText(es[1..]) + "]" + rest;
    var c := if last then ']' else ',';
    var y := e.after + [c] + more;
    ElementsSplit(es, rest);
    assert e.after + ElementsTail(es, rest) == y;
    AfterValue(e.after, c, more);
    ValueComplete(e.value, e.before, y);
    FirstChar(e.value);
    ElementsTurn(ElementsText(es) + "]" + rest, acc, Value(e.value), y, c, more);
    ValuesCons(es, acc);
    if !last {
      ElementsComplete(es[1..], acc + [Value(e.value)], rest);
    }
  }

  /** One turn of the element loop. */
  lemma ElementsTurn(u: string, acc: seq<JsonNode>, v: JsonNode, y: string, c: char, more: string)
    requires u != "" && ParseValue(u) == Ok(v, y) && SkipWs(y) == [c] + more && (c == ',' || c == ']')
    ensures ParseElements(u, acc) == if c == ',' then ParseElements(more, acc + [v]) else Ok(Array(acc + [v]), more)
  {
    hide ParseValue, SkipWs;
    assert ([c] + more)[1..] == more;
  }

  lemma MembersNotBlank(ms: seq<Member>, rest: string)
    requires ms != [] && LooseMembers(ms)
    ensures var u := MembersText(ms) + "}" + rest;
            SkipWs(u) != "" && Peek(SkipWs(u)) != '}'
  {
    hide Loose, Text, SkipWs, White, KeyText, MembersText;
    var m := ms[0];
    var tail := Text(m.value) + (m.after + MembersTail(ms, rest));
    MembersSplit(ms, rest);
    assert m.before + KeyText(m) + tail == m.before + (KeyText(m) + tail);
    SkipWhite(m.before, KeyText(m) + tail);
    KeyFirst(m);
    SkipNone(KeyText(m) + tail);
  }

  lemma KeyFirst(m: Member)
    ensures KeyText(m) != "" && KeyText(m)[0] == '"'
  {
    hide CharsText;
  }

  /** The braces around the members. */
  lemma ObjectShell(blank: string, members: seq<Member>, rest: string)
    requires White(blank) && LooseMembers(members)
    requires members != [] ==>
               ParseMembers(MembersText(members) + "}" + rest, map[]) == Ok(Object(MemberMap(members, map[])), rest)
    ensures ParseValue(Text(ObjectText(blank, members)) + rest) == Ok(Object(MemberMap(members, map[])), rest)
  {
    hide ParseMembers, MembersText, ParseArray, ParseBool, ParseNull, ParseString, ParseNumber, Expect, LooseMembers;
    var u := Text(ObjectText(blank, members)) + rest;
    var inner := (if members == [] then blank else MembersText(members)) + "}" + rest;
    assert u == "" + ['{'] + inner;
    SkipNone(u);
    ExpectFound("", '{', inner);
    if members == [] {
      AfterValue(blank, '}', rest);
    } else {
      MembersNotBlank(members, rest);
      MembersSkip(inner, map[]);
    }
  }

  lemma MembersSkip(t: string, acc: map<string, JsonNode>)
    requires SkipWs(t) != ""
    ensures ParseMembers(SkipWs(t), acc) == ParseMembers(t, acc)
  {
    MemberOfSkipped(t);
    hide ParseMember, SkipWs;
  }

  lemma MemberOfSkipped(t: string)
    ensures ParseMember(SkipWs(t)) == ParseMember(t)
  {
    hide ParseString, Expect, ParseValue;
    SkipIdempotent(t);
  }

  /** Key, colon and value of one member. */
  lemma MemberComplete(m: Member, y: string)
    requires White(m.before) && LooseString(m.key) && White(m.colonBefore) && White(m.colonAfter)
    requires ParseValue(m.colonAfter + Text(m.value) + y) == Ok(Value(m.value), y)
    ensures ParseMember(m.before + KeyText(m) + (Text(m.value) + y)) == Ok((Decode(m.key), Value(m.value)), y)
  {
    hide ParseString, Expect, ParseValue, LooseString, Text, Value, Quoted;
    var x := m.colonAfter + Text(m.value) + y;
    var w := m.colonBefore + ":" + x;
    MemberGroups(m, Text(m.value), y);
    MemberStart(m.before, m.key, w);
    hide SkipWs, KeyText, White;
    StringComplete("", m.key, w);
    assert "" + Quoted(m.key) + w == Quoted(m.key) + w;
    ExpectFound(m.colonBefore, ':', x);
    assert w == m.colonBefore + [':'] + x;
  }

  lemma MemberGroups(m: Member, v: string, y: string)
    ensures m.before + KeyText(m) + (v + y)
            == m.before + (Quoted(m.key) + (m.colonBefore + ":" + (m.colonAfter + v + y)))
  {
    hide Quoted;
    assert KeyText(m) + (v + y) == Quoted(m.key) + (m.colonBefore + ":" + (m.colonAfter + v + y));
  }

  lemma MemberStart(before: string, key: seq<StringChar>, w: string)
    requires White(before)
    ensures SkipWs(before + (Quoted(key) + w)) == Quoted(key) + w && Peek(Quoted(key) + w) == '"'
  {
    hide CharsText;
    SkipWhite(before, Quoted(key) + w);
    SkipNone(Quoted(key) + w);
  }

  function MembersTail(ms: seq<Member>, rest: string): string
    requires ms != []
  {
    if |ms| == 1 then "}" + rest else "," + (MembersText(ms[1..]) + "}" + rest)
  }

  lemma MembersSplit(ms: seq<Member>, rest: string)
    requires ms != []
    ensures var m := ms[0];
            MembersText(ms) + "}" + rest
            == m.before + KeyText(m) + (Text(m.value) + (m.after + MembersTail(ms, rest)))
  {
    hide Text, KeyText;
    var m, end := ms[0], "}" + rest;
    var more := if |ms| == 1 then "" else "," + MembersText(ms[1..]);
    Regroup(m.before + KeyText(m), Text(m.value), m.after, more, end);
    assert MembersText(ms) == m.before + KeyText(m) + Text(m.value) + m.after + more;
    hide MembersText;
    JoinTail(MembersText(ms), more, MembersText(ms[1..]), "}", rest, |ms| == 1);
  }

  lemma {:induction false} MembersComplete(ms: seq<Member>, acc: map<string, JsonNode>, rest: string)
    requires ms != [] && LooseMembers(ms)
    ensures ParseMembers(MembersText(ms) + "}" + rest, acc) == Ok(Object(MemberMap(ms, acc)), rest)
    decreases ms, 0
  {
    hide ParseValue, SkipWs, White, Delimited, Loose, MembersText, Text, ParseMembers, KeyText, LooseString, ParseMember;
    var m := ms[0];
    var last := |ms| == 1;
    var more := if last then rest else MembersText(ms[1..]) + "}" + rest;
    var c := if last then '}' else ',';
    var y := m.after + [c] + more;
    MembersSplit(ms, rest);
    assert m.after + MembersTail(ms, rest) == y;
    AfterValue(m.after, c, more);
    ValueComplete(m.value, m.colonAfter, y);
    MemberComplete(m, y);
    FirstChar(m.value);
    MembersTurn(MembersText(ms) + "}" + rest, acc, Decode(m.key), Value(m.value), y, c, more);
    if last {
      assert ms[1..] == [];
    } else {
      MembersComplete(ms[1..], acc[Decode(m.key) := Value(m.value)], rest);
    }
  }

  /** One turn of the member loop. */
  lemma MembersTurn(u: string, acc: map<string, JsonNode>, k: string, v: JsonNode, y: string, c: char, more: string)
    requires u != "" && ParseMember(u) == Ok((k, v), y) && SkipWs(y) == [c] + more && (c == ',' || c == '}')
    ensures ParseMembers(u, acc) == if c == ',' then ParseMembers(more, acc[k := v]) else Ok(Object(acc[k := v]), more)
  {
    hide ParseMember, SkipWs;
    assert ([c] + more)[1..] == more;
  }

  /** Every text of the wider grammar, followed by nothing that would continue it, is read as the tree it stands for. */
  lemma LooseComplete(t: Syntax, ws: string, rest: string)
    requires Loose(t) && White(ws) && (t.NumberText? ==> Delimited(t.n, rest))
    ensures Parse(ws + Text(t) + rest) == (Value(t), "")
  {
    hide ParseValue, Loose, Delimited, Text, Value, White;
    ValueComplete(t, ws, rest);
    ValueOfSkipped(ws + Text(t) + rest);
  }

  /**
   Every JSON text, with any white space before it and anything after it that does not
   continue a number, is read as the tree it stands for, and nothing is reported.
   */
  lemma ParseComplete(t: Syntax, ws: string, rest: string)
    requires Good(t) && White(ws) && (t.NumberText? ==> EndsNumber(rest))
    ensures Parse(ws + Text(t) + rest) == (Value(t), "")
  {
    hide Parse, Loose, Delimited, EndsNumber, Text, Value, White, GoodNumber;
    GoodLoose(t);
    if t.NumberText? {
      GoodDelimited(t.n, rest);
    }
    LooseComplete(t, ws, rest);
  }

  // ----- duplicate keys -----

  ghost predicate HasKey(ms: seq<Member>, k: string) {
    exists i :: 0 <= i < |ms| && Decode(ms[i].key) == k
  }

  /** i is the last member whose decoded key is k. */
  ghost predicate LastWithKey(ms: seq<Member>, k: string, i: nat) {
    i < |ms| && Decode(ms[i].key) == k && forall j | i < j < |ms| :: Decode(ms[j].key) != k
  }

  lemma {:induction false} MapKeys(ms: seq<Member>, acc: map<string, JsonNode>, k: string)
    ensures k in MemberMap(ms, acc) <==> k in acc || HasKey(ms, k)
    ensures !HasKey(ms, k) && k in acc ==> MemberMap(ms, acc)[k] == acc[k]
    decreases |ms|
  {
    hide Decode, Value;
    if ms != [] {
      var acc' := acc[Decode(ms[0].key) := Value(ms[0].value)];
      MapKeys(ms[1..], acc', k);
      assert HasKey(ms, k) <==> Decode(ms[0].key) == k || HasKey(ms[1..], k) by {
        if HasKey(ms[1..], k) {
          var i :| 0 <= i < |ms[1..]| && Decode(ms[1..][i].key) == k;
          assert ms[i + 1] == ms[1..][i];
        }
        if HasKey(ms, k) {
          var i :| 0 <= i < |ms| && Decode(ms[i].key) == k;
          assert i > 0 ==> ms[1..][i - 1] == ms[i];
        }
      }
    }
  }

  lemma {:induction false} MapLast(ms: seq<Member>, acc: map<string, JsonNode>, k: string, i: nat)
    requires LastWithKey(ms, k, i)
    ensures k in MemberMap(ms, acc) && MemberMap(ms, acc)[k] == Value(ms[i].value)
    decreases |ms|
  {
    hide Decode, Value;
    var acc' := acc[Decode(ms[0].key) := Value(ms[0].value)];
    var rest := ms[1..];
    assert forall j | 0 <= j < |rest| :: rest[j] == ms[j + 1];
    if i == 0 {
      MapKeys(rest, acc', k);
    } else {
      MapLast(rest, acc', k, i - 1);
    }
  }

  /** An object text is read as the map in which each key has the value of its last occurrence. */
  lemma LastKeyWins(blank: string, ms: seq<Member>, ws: string, rest: string, k: string)
    requires Loose(ObjectText(blank, ms)) && White(ws)
    ensures var (node, err) := Parse(ws + Text(ObjectText(blank, ms)) + rest);
            && err == "" && node.Object?
            && (node.Has(k) <==> HasKey(ms, k))
            && (forall i: nat | LastWithKey(ms, k, i) :: node.At(k) == Value(ms[i].value))
  {
    hide Parse, Loose, Text, White, MemberMap, HasKey;
    LooseComplete(ObjectText(blank, ms), ws, rest);
    MapKeys(ms, map[], k);
    forall i: nat | LastWithKey(ms, k, i)
      ensures k in MemberMap(ms, map[]) && MemberMap(ms, map[])[k] == Value(ms[i].value)
    {
      MapLast(ms, map[], k, i);
    }
  }

  // ----- where the decoding departs from section 7 of RFC 8259 -----

  function HexDigit(c: char): nat
    requires IsHex(c)
  {
    if IsDigit(c) then DigitValue(c)
    else if 'a' <= c <= 'f' then c as int - 'a' as int + 10
    else c as int - 'A' as int + 10
  }

  function HexValue(hex: string): nat
    requires |hex| == 4 && forall i | 0 <= i < 4 :: IsHex(hex[i])
  {
    4096 * HexDigit(hex[0]) + 256 * HexDigit(hex[1]) + 16 * HexDigit(hex[2]) + HexDigit(hex[3])
  }

  /** The code the RFC gives to a character of a string. */
  function Code(ch: StringChar): int
    requires GoodChar(ch)
  {
    match ch
    case Plain(c) => c as int
    case Esc(e) =>
      if e == 'b' then 0x08 else if e == 'f' then 0x0C else if e == 'n' then 0x0A
      else if e == 'r' then 0x0D else if e == 't' then 0x09 else e as int
    case Unicode(hex) => HexValue(hex)
  }

  function Codes(cs: seq<StringChar>): seq<int>
    requires GoodString(cs)
  {
    if cs == [] then [] else [Code(cs[0])] + Codes(cs[1..])
  }

  function StringCodes(s: string): seq<int> {
    if s == "" then [] else [s[0] as int] + StringCodes(s[1..])
  }

  /** No \b, no \f, and no \u other than \u003F. */
  predicate Faithful(ch: StringChar)
    requires GoodChar(ch)
  {
    match ch
    case Plain(_) => true
    case Esc(e) => e != 'b' && e != 'f'
    case Unicode(hex) => HexValue(hex) == 0x3F
  }

  lemma DecodedCode(ch: StringChar)
    requires GoodChar(ch)
    ensures Decoded(ch) as int == Code(ch) <==> Faithful(ch)
  {
  }

  /** A string is decoded as the RFC says exactly when each of its escapes is one the parser knows. */
  lemma {:induction false} DecodeExact(cs: seq<StringChar>)
    requires GoodString(cs)
    ensures StringCodes(Decode(cs)) == Codes(cs) <==> forall i | 0 <= i < |cs| :: Faithful(cs[i])
  {
    hide Faithful, Decoded, Code, GoodChar;
    if cs != [] {
      DecodedCode(cs[0]);
      DecodeExact(cs[1..]);
      assert Decode(cs)[1..] == Decode(cs[1..]);
      assert StringCodes(Decode(cs)) == [Decoded(cs[0]) as int] + StringCodes(Decode(cs[1..]));
      hide StringCodes, Codes, Decode;
      assert forall i | 0 <= i < |cs[1..]| :: cs[1..][i] == cs[i + 1];
      assert StringCodes(Decode(cs)) == Codes(cs)
             <==> Decoded(cs[0]) as int == Code(cs[0]) && StringCodes(Decode(cs[1..])) == Codes(cs[1..]) by {
        assert StringCodes(Decode(cs))[0] == Decoded(cs[0]) as int;
        assert StringCodes(Decode(cs))[1..] == StringCodes(Decode(cs[1..]));
      }
      if forall i | 0 <= i < |cs| :: Faithful(cs[i]) {
        assert forall i | 0 <= i < |cs[1..]| :: Faithful(cs[1..][i]);
      }
      if Faithful(cs[0]) && forall i | 0 <= i < |cs[1..]| :: Faithful(cs[1..][i]) {
        assert forall i | 0 < i < |cs| :: cs[i] == cs[1..][i - 1];
      }
    }
  }
}
