/**
 The language of the parser: exactly the texts it accepts, and the tree it makes of each. Beyond the grammar of
 RFC 8259 it takes any escape and any parts of a number, ignores what follows the value, and lets the end of the
 input close an outermost array or object.
 */
module JsonLanguage {
  import opened Json
  import opened JsonText
  import JsonParser

  /** An array or object cut off after its bracket or after a comma. */
  function OpenText(t: Syntax): string
    requires t.ArrayText? || t.ObjectText?
  {
    match t
    case ArrayText(blank, elems) => "[" + (if elems == [] then blank else ElementsText(elems) + ",")
    case ObjectText(blank, members) => "{" + (if members == [] then blank else MembersText(members) + ",")
  }

  /** `input` is white space, the text of t, and something that does not continue it; or it ends inside t. */
  predicate Spells(input: string, ws: string, t: Syntax, rest: string) {
    && White(ws) && Loose(t)
    && ((input == ws + Text(t) + rest && (t.NumberText? ==> Delimited(t.n, rest)))
        || ((t.ArrayText? || t.ObjectText?) && rest == "" && input == ws + OpenText(t)))
  }

  // ----- what is accepted is a text -----

  lemma {:induction false} SkipSplit(t: string) returns (ws: string)
    ensures t == ws + SkipWs(t) && White(ws)
    ensures SkipWs(t) != "" ==> !IsSpace(SkipWs(t)[0])
  {
    ws := "";
    if t != "" && IsSpace(t[0]) {
      ws := SkipSplit(t[1..]);
      ws := [t[0]] + ws;
    }
  }

  lemma ExpectSound(t: string, c: char) returns (ws: string)
    requires c != '\0' && Expect(t, c).Ok?
    ensures White(ws) && t == ws + [c] + Expect(t, c).rest
    ensures t[0] == c && !IsSpace(c) ==> ws == ""
  {
    ws := SkipSplit(t);
    var u := SkipWs(t);
    assert u == [c] + u[1..];
    hide SkipWs;
    if ws != "" {
      assert IsSpace(ws[0]) && t[0] == ws[0];
    }
  }

  lemma {:induction false} BodySound(t: string) returns (cs: seq<StringChar>)
    requires StringBody(t).1 != ""
    ensures LooseString(cs) && t == CharsText(cs) + StringBody(t).1 && Decode(cs) == StringBody(t).0
    ensures StringBody(t).1[0] == '"'
    decreases |t|
  {
    hide StringBody, LooseString, CharText, CharsText, Decode, Decoded, LooseChar;
    BodyEnds(t);
    if t[0] == '"' {
      cs := [];
    } else {
      var ch := FirstCharSound(t);
      var u := t[|CharText(ch)|..];
      var more := BodySound(u);
      cs := [ch] + more;
      CharsCons(ch, more);
      var w := StringBody(u).1;
      assert CharText(ch) + (CharsText(more) + w) == CharText(ch) + CharsText(more) + w;
    }
  }

  lemma BodyEnds(t: string)
    ensures t == "" ==> StringBody(t).1 == ""
    ensures t != "" && t[0] == '"' ==> StringBody(t) == ("", t)
    ensures LooseString([]) && CharsText([]) == "" && Decode([]) == "" && "" + t == t
  {
  }

  lemma CharsCons(ch: StringChar, more: seq<StringChar>)
    requires LooseChar(ch) && LooseString(more)
    ensures LooseString([ch] + more)
    ensures CharsText([ch] + more) == CharText(ch) + CharsText(more) && Decode([ch] + more) == [Decoded(ch)] + Decode(more)
  {
    hide LooseChar, CharText, Decoded;
    assert ([ch] + more)[1..] == more;
  }

  lemma FirstCharSound(t: string) returns (ch: StringChar)
    requires t != "" && t[0] != '"' && StringBody(t).1 != ""
    ensures LooseChar(ch) && 0 < |CharText(ch)| <= |t| && t == CharText(ch) + t[|CharText(ch)|..]
    ensures var r := StringBody(t[|CharText(ch)|..]);
            StringBody(t) == ([Decoded(ch)] + r.0, r.1)
  {
    if t[0] != '\\' {
      ch := Plain(t[0]);
    } else if t[1] != 'u' {
      ch := Esc(t[1]);
    } else {
      assert StringBody("") == ("", "");
      assert |t| >= 6;
      ch := Unicode(t[2..6]);
      assert t[..6] == "\\u" + t[2..6];
    }
  }

  lemma StringSound(t: string) returns (ws: string, cs: seq<StringChar>)
    requires ParseString(t).Ok?
    ensures White(ws) && LooseString(cs) && ParseString(t).v == Decode(cs)
    ensures t == ws + Quoted(cs) + ParseString(t).rest
    ensures t[0] == '"' ==> ws == ""
  {
    ws := ExpectSound(t, '"');
    var u := Expect(t, '"').rest;
    var w := StringBody(u).1;
    var ws' := ExpectSound(w, '"');
    hide StringBody, LooseString, CharsText, Decode;
    cs := BodySound(u);
    var rest := ParseString(t).rest;
    assert ws' == "" && rest == Expect(w, '"').rest;
    hide Expect, ParseString;
    Enclosed(t, ws, cs, u, w, rest);
  }

  lemma Enclosed(t: string, ws: string, cs: seq<StringChar>, u: string, w: string, rest: string)
    requires t == ws + ['"'] + u && u == CharsText(cs) + w && w == "" + ['"'] + rest
    ensures t == ws + Quoted(cs) + rest
  {
    hide CharsText;
    var c := CharsText(cs);
    assert ws + ['"'] + (c + ("" + ['"'] + rest)) == ws + ("\"" + c + "\"") + rest;
  }

  // ----- numbers -----

  lemma {:induction false} DigitsSound(t: string)
    ensures AllDigits(t[..DigitCount(t)]) && NoDigitFirst(t[DigitCount(t)..])
  {
    if t != "" && IsDigit(t[0]) {
      DigitsSound(t[1..]);
      var n := DigitCount(t[1..]);
      assert t[..n + 1] == [t[0]] + t[1..][..n];
      assert t[n + 1..] == t[1..][n..];
    }
  }

  lemma IntegerSound(t: string) returns (minus: bool, digits: string)
    requires Peek(t) == '-' || IsDigit(Peek(t))
    ensures AllDigits(digits) && (minus || digits != "")
    ensures var n := IntegerLength(t);
            t[..n] == (if minus then "-" else "") + digits && NoDigitFirst(t[n..])
  {
    minus := Peek(t) == '-';
    var k := if minus then 1 else 0;
    var u := t[k..];
    DigitsSound(u);
    digits := u[..DigitCount(u)];
    var n := IntegerLength(t);
    assert t[n..] == u[DigitCount(u)..];
    hide AllDigits;
    assert t[..n] == t[..k] + digits;
  }

  lemma FractionSound(t: string) returns (fs: seq<string>)
    requires NoDigitFirst(t)
    ensures |fs| <= 1 && (forall i | 0 <= i < |fs| :: AllDigits(fs[i]))
    ensures var n := FractionLength(t);
            && t[..n] == FractionText(fs) && NoDigitFirst(t[n..])
            && (fs == [] <==> n == 0) && (fs == [] ==> Peek(t) != '.')
  {
    fs := [];
    if Peek(t) == '.' {
      var u := t[1..];
      DigitsSound(u);
      fs := [u[..DigitCount(u)]];
      assert t[1 + DigitCount(u)..] == u[DigitCount(u)..];
      hide AllDigits;
      assert t[..1 + DigitCount(u)] == "." + fs[0];
    }
  }

  /** The mark of an exponent, with its sign if there is one. */
  lemma MarkSound(t: string) returns (sign: string)
    requires Peek(t) == 'e' || Peek(t) == 'E'
    ensures sign == "" || sign == "+" || sign == "-"
    ensures 1 + |sign| <= |t| && t[..1 + |sign|] == [t[0]] + sign
    ensures ExponentLength(t) == 1 + |sign| + DigitCount(t[1 + |sign|..])
    ensures sign == "" ==> Peek(t[1..]) != '+' && Peek(t[1..]) != '-'
  {
    hide DigitCount;
    sign := if Peek(t[1..]) == '+' || Peek(t[1..]) == '-' then [t[1]] else "";
  }

  lemma ExponentSound(t: string) returns (xs: seq<Exponent>)
    requires NoDigitFirst(t)
    ensures |xs| <= 1 && (forall i | 0 <= i < |xs| :: LooseExponent(xs[i]))
    ensures var n := ExponentLength(t);
            && t[..n] == ExponentText(xs) && NoDigitFirst(t[n..])
            && (xs == [] <==> n == 0) && (xs == [] ==> Peek(t) != 'e' && Peek(t) != 'E')
            && (xs != [] && xs[0].sign == xs[0].digits == "" ==> Peek(t[n..]) != '+' && Peek(t[n..]) != '-')
  {
    xs := [];
    if Peek(t) == 'e' || Peek(t) == 'E' {
      var sign := MarkSound(t);
      var m := 1 + |sign|;
      var u := t[m..];
      DigitsSound(u);
      var d := DigitCount(u);
      hide AllDigits, DigitCount, ExponentLength, NoDigitFirst, Peek;
      var x := Exponent(t[0], sign, u[..d]);
      assert LooseExponent(x);
      hide LooseExponent;
      xs := [x];
      assert ExponentText(xs) == t[..m] + u[..d];
      hide ExponentText;
      TwoParts(t, m, d);
    }
  }

  lemma TwoParts(t: string, m: nat, d: nat)
    requires m + d <= |t|
    ensures t[m..][d..] == t[m + d..] && t[..m] + t[m..][..d] == t[..m + d]
  {
  }

  lemma NumberSound(t: string) returns (n: Number)
    requires Peek(t) == '-' || IsDigit(Peek(t))
    ensures LooseNumber(n) && ParseNumber(t).v == NumberNode(n)
    ensures t == NumberLexeme(n) + ParseNumber(t).rest && Delimited(n, ParseNumber(t).rest)
  {
    hide *;
    var i := IntegerLength(t);
    var f := FractionLength(t[i..]);
    var e := ExponentLength(t[i + f..]);
    NumberUnfold(t, i, f, e);
    var minus, digits := IntegerSound(t);
    var fs := FractionSound(t[i..]);
    var xs := ExponentSound(t[i + f..]);
    Slices(t, i, f, e);
    n := Number(minus, digits, fs, xs);
    NumberLoose(n, t[i + f + e..]);
    NumberIs(t, i, f, e, n);
  }

  lemma NumberLoose(n: Number, rest: string)
    requires AllDigits(n.digits) && (n.minus || n.digits != "")
    requires |n.fractions| <= 1 && (forall i | 0 <= i < |n.fractions| :: AllDigits(n.fractions[i]))
    requires |n.exponents| <= 1 && (forall i | 0 <= i < |n.exponents| :: LooseExponent(n.exponents[i]))
    requires NoDigitFirst(rest)
    requires n.exponents == [] ==> Peek(rest) != 'e' && Peek(rest) != 'E'
    requires n.exponents == [] && n.fractions == [] ==> Peek(rest) != '.'
    requires n.exponents != [] && n.exponents[0].sign == n.exponents[0].digits == "" ==> Peek(rest) != '+' && Peek(rest) != '-'
    ensures LooseNumber(n) && Delimited(n, rest)
  {
    hide AllDigits, LooseExponent, Peek, NoDigitFirst;
  }

  lemma NumberUnfold(t: string, i: nat, f: nat, e: nat)
    requires Peek(t) == '-' || IsDigit(Peek(t))
    requires i == IntegerLength(t) && f == FractionLength(t[i..]) && e == ExponentLength(t[i + f..])
    ensures i + f + e <= |t|
    ensures var num := t[..i + f + e];
            ParseNumber(t) == Ok(if f > 0 || e > 0 then Double(num) else Int(Atoll(num)), t[i + f + e..])
  {
    hide IntegerLength, FractionLength, ExponentLength, Atoll;
  }

  lemma Slices(t: string, i: nat, f: nat, e: nat)
    requires i + f + e <= |t|
    ensures t[i..][f..] == t[i + f..] && t[i..][..f] == t[i..i + f]
    ensures t[i + f..][e..] == t[i + f + e..] && t[i + f..][..e] == t[i + f..i + f + e]
  {
  }

  lemma NumberIs(t: string, i: nat, f: nat, e: nat, n: Number)
    requires i + f + e <= |t| && t[..i] == (if n.minus then "-" else "") + n.digits
    requires t[i..i + f] == FractionText(n.fractions) && t[i + f..i + f + e] == ExponentText(n.exponents)
    requires (n.fractions == [] <==> f == 0) && (n.exponents == [] <==> e == 0)
    ensures t == NumberLexeme(n) + t[i + f + e..]
    ensures var num := t[..i + f + e]; NumberNode(n) == if f > 0 || e > 0 then Double(num) else Int(Atoll(num))
  {
    hide FractionText, ExponentText, Atoll;
    assert t[..i + f + e] == t[..i] + (t[i..i + f] + t[i + f..i + f + e]);
    assert SignedDigits(n) == t[..i];
    assert f == e == 0 ==> t[..i + f + e] == t[..i];
  }

  // ----- values -----

  lemma MembersCons(m: Member, ms: seq<Member>, acc: map<string, JsonNode>)
    requires LooseMember(m) && LooseMembers(ms)
    ensures LooseMembers([m] + ms)
    ensures MembersText([m] + ms)
            == m.before + KeyText(m) + Text(m.value) + m.after + (if ms == [] then "" else "," + MembersText(ms))
    ensures MemberMap([m] + ms, acc) == MemberMap(ms, acc[Decode(m.key) := Value(m.value)])
  {
    hide LooseMember, KeyText, Text, Value, Decode;
    assert ([m] + ms)[1..] == ms;
  }

  lemma ElementsCons(e: Element, es: seq<Element>)
    requires White(e.before) && Loose(e.value) && White(e.after) && LooseElements(es)
    ensures LooseElements([e] + es)
    ensures ElementsText([e] + es) == e.before + Text(e.value) + e.after + (if es == [] then "" else "," + ElementsText(es))
    ensures ElementValues([e] + es) == [Value(e.value)] + ElementValues(es)
  {
    hide White, Loose, Text, Value;
    assert ([e] + es)[1..] == es;
  }

  lemma WhiteConcat(a: string, b: string)
    requires White(a) && White(b)
    ensures White(a + b)
  {
  }

  /** White space after the opening bracket belongs to the first item. */
  lemma ElementsIndent(ws: string, es: seq<Element>) returns (r: seq<Element>)
    requires es != [] && White(ws) && LooseElements(es)
    ensures r != [] && LooseElements(r) && ElementsText(r) == ws + ElementsText(es) && ElementValues(r) == ElementValues(es)
  {
    hide Loose, White, Text, Value, LooseElements, ElementsText, ElementValues;
    var e := es[0];
    var d := e.(before := ws + e.before);
    FirstElement(es);
    WhiteConcat(ws, e.before);
    ElementsCons(d, es[1..]);
    ElementsCons(e, es[1..]);
    assert [e] + es[1..] == es;
    r := [d] + es[1..];
    var more := if es[1..] == [] then "" else "," + ElementsText(es[1..]);
    assert ws + (e.before + Text(e.value) + e.after + more) == (ws + e.before) + Text(e.value) + e.after + more;
  }

  lemma FirstElement(es: seq<Element>)
    requires es != [] && LooseElements(es)
    ensures White(es[0].before) && Loose(es[0].value) && White(es[0].after) && LooseElements(es[1..])
  {
  }

  lemma MembersIndent(ws: string, ms: seq<Member>) returns (r: seq<Member>)
    requires ms != [] && White(ws) && LooseMembers(ms)
    ensures r != [] && LooseMembers(r) && MembersText(r) == ws + MembersText(ms) && MemberMap(r, map[]) == MemberMap(ms, map[])
  {
    hide LooseMember, White, Text, KeyText, Value, Decode, LooseMembers, MembersText, MemberMap;
    var m := ms[0];
    FirstMember(ws, ms);
    var d := m.(before := ws + m.before);
    MembersCons(d, ms[1..], map[]);
    MembersCons(m, ms[1..], map[]);
    assert [m] + ms[1..] == ms;
    r := [d] + ms[1..];
    var more := if ms[1..] == [] then "" else "," + MembersText(ms[1..]);
    assert ws + (m.before + KeyText(m) + Text(m.value) + m.after + more)
           == (ws + m.before) + KeyText(m) + Text(m.value) + m.after + more;
  }

  lemma FirstMember(ws: string, ms: seq<Member>)
    requires ms != [] && White(ws) && LooseMembers(ms)
    ensures LooseMember(ms[0]) && LooseMembers(ms[1..])
    ensures var d := ms[0].(before := ws + ms[0].before); LooseMember(d) && KeyText(d) == KeyText(ms[0])
  {
    WhiteConcat(ws, ms[0].before);
    hide White, Quoted, LooseString, Loose, LooseMembers;
  }

  function OpenElements(es: seq<Element>): string {
    if es == [] then "" else ElementsText(es) + ","
  }

  function OpenMembers(ms: seq<Member>): string {
    if ms == [] then "" else MembersText(ms) + ","
  }

  lemma {:induction false} ValueSound(t: string) returns (ws: string, s: Syntax)
    requires ParseValue(t).Ok?
    ensures Spells(t, ws, s, ParseValue(t).rest) && Value(s) == ParseValue(t).v
    decreases |t|, 4
  {
    hide ParseValue, Spells, Value;
    ws := SkipSplit(t);
    ValueOfSkipped(t);
    s := TokenSound(SkipWs(t));
    SpellsAfter(ws, SkipWs(t), s, ParseValue(t).rest);
  }

  lemma SpellsAfter(ws: string, u: string, s: Syntax, rest: string)
    requires White(ws) && Spells(u, "", s, rest)
    ensures Spells(ws + u, ws, s, rest)
  {
    hide Loose, White, Text, OpenText, Delimited;
    assert u == "" + Text(s) + rest ==> ws + u == ws + Text(s) + rest;
    if s.ArrayText? || s.ObjectText? {
      assert u == "" + OpenText(s) ==> ws + u == ws + OpenText(s);
    }
  }

  lemma {:induction false} TokenSound(u: string) returns (s: Syntax)
    requires ParseValue(u).Ok? && u == SkipWs(u)
    ensures Spells(u, "", s, ParseValue(u).rest) && Value(s) == ParseValue(u).v
    decreases |u|, 3
  {
    hide ParseString, ParseObject, ParseArray, ParseBool, ParseNull, ParseNumber, Spells, Value, SkipWs;
    var c := Peek(u);
    if c == '{' {
      s := ObjectSound(u);
    } else if c == '[' {
      s := ArraySound(u);
    } else {
      s := ScalarSound(u);
    }
  }

  lemma ScalarSound(u: string) returns (s: Syntax)
    requires ParseValue(u).Ok? && u == SkipWs(u) && Peek(u) != '{' && Peek(u) != '['
    ensures Spells(u, "", s, ParseValue(u).rest) && Value(s) == ParseValue(u).v
  {
    hide ParseString, ParseObject, ParseArray, ParseBool, ParseNull, ParseNumber, SkipWs, Spells, Value;
    hide LooseNumber, NumberLexeme, NumberNode, Delimited, Quoted, LooseString, Decode;
    var c := Peek(u);
    if c == '"' {
      var ws, cs := StringSound(u);
      s := StringText(cs);
      StringSpells(u, cs, ParseValue(u).rest);
    } else if c == 't' || c == 'f' {
      s := BoolSound(u);
    } else if c == 'n' {
      s := NullText;
      NullSound(u);
    } else {
      var n := NumberSound(u);
      s := NumberText(n);
      NumberSpells(u, n, ParseValue(u).rest);
    }
  }

  lemma StringSpells(u: string, cs: seq<StringChar>, rest: string)
    requires u == "" + Quoted(cs) + rest && LooseString(cs)
    ensures Spells(u, "", StringText(cs), rest) && Value(StringText(cs)) == String(Decode(cs))
  {
    hide Quoted, LooseString, Decode;
  }

  lemma NumberSpells(u: string, n: Number, rest: string)
    requires u == NumberLexeme(n) + rest && LooseNumber(n) && Delimited(n, rest)
    ensures Spells(u, "", NumberText(n), rest) && Value(NumberText(n)) == NumberNode(n)
  {
    hide NumberLexeme, LooseNumber, Delimited, NumberNode;
    assert "" + NumberLexeme(n) == NumberLexeme(n);
  }

  lemma BoolSound(u: string) returns (s: Syntax)
    requires ParseBool(u).Ok?
    ensures Spells(u, "", s, ParseBool(u).rest) && Value(s) == ParseBool(u).v
  {
    s := BoolText("true" <= u);
    assert u == "" + Text(s) + ParseBool(u).rest;
  }

  lemma NullSound(u: string)
    requires ParseNull(u).Ok?
    ensures Spells(u, "", NullText, ParseNull(u).rest) && Value(NullText) == ParseNull(u).v
  {
    assert u == "" + "null" + ParseNull(u).rest;
  }

  // ----- arrays -----

  /** The brackets around the items. */
  lemma ArraySpells(t: string, blank: string, es: seq<Element>, open: bool, rest: string) returns (s: Syntax)
    requires White(blank) && LooseElements(es) && (open ==> rest == "")
    requires t == "[" + (blank + if open then OpenElements(es) else ElementsText(es) + "]" + rest)
    ensures Spells(t, "", s, rest) && Value(s) == Array(ElementValues(es))
  {
    hide LooseElements, ElementValues, ElementsText, White;
    if es == [] {
      NoElements();
      s := ArrayText(blank, []);
      assert blank + ("" + "]" + rest) == blank + "]" + rest && blank + "" == blank;
      assert White("") by { WhiteNone(); }
      assert "[" + (blank + "]" + rest) == "" + ("[" + blank + "]") + rest;
    } else {
      var r := ElementsIndent(blank, es);
      s := ArrayText("", r);
      var text := ElementsText(es);
      WhiteNone();
      assert blank + (text + "]" + rest) == (blank + text) + "]" + rest;
      assert blank + (text + ",") == (blank + text) + ",";
      assert "[" + ((blank + text) + "]" + rest) == "" + ("[" + (blank + text) + "]") + rest;
    }
  }

  lemma WhiteNone()
    ensures White("")
  {
  }

  lemma NoElements()
    ensures LooseElements([]) && ElementsText([]) == "" && ElementValues([]) == []
  {
  }

  lemma {:induction false} ArraySound(t: string) returns (s: Syntax)
    requires t != "" && t[0] == '[' && ParseArray(t).Ok?
    ensures Spells(t, "", s, ParseArray(t).rest) && Value(s) == ParseArray(t).v
    decreases |t|, 2
  {
    hide SkipWs, ParseElements, Spells, Value, LooseElements, ElementValues, ElementsText, White;
    var ws := ExpectSound(t, '[');
    var u := Expect(t, '[').rest;
    hide Expect;
    var w := SkipWs(u);
    var blank := SkipSplit(u);
    var es, open := [], false;
    NoElements();
    if Peek(w) == ']' {
      assert w == "" + "]" + w[1..];
    } else {
      es, open := ElementsSound(w, []);
      assert [] + ElementValues(es) == ElementValues(es);
    }
    var rest := ParseArray(t).rest;
    assert t == "[" + (blank + w);
    s := ArraySpells(t, blank, es, open, rest);
  }

  /** The items the loop reads, and whether the input ended before the closing bracket. */
  lemma {:induction false} ElementsSound(t: string, acc: seq<JsonNode>) returns (es: seq<Element>, open: bool)
    requires ParseElements(t, acc).Ok?
    ensures LooseElements(es) && ParseElements(t, acc).v == Array(acc + ElementValues(es))
    ensures var rest := ParseElements(t, acc).rest;
            && (if open then rest == "" else es != [])
            && t == if open then OpenElements(es) else ElementsText(es) + "]" + rest
    decreases |t|, 5
  {
    hide SkipWs, ParseElements, ParseValue, Spells, Value, LooseElements, ElementValues, ElementsText, White, Text, Loose,
      OpenElements;
    NoElements();
    if t == "" {
      JsonParser.ElementsEnd(acc);
      OpenIs([]);
      es, open := [], true;
      assert acc + [] == acc;
    } else {
      JsonParser.ElementsUnfold(t, acc);
      var p := ParseValue(t);
      var ws, v := ValueSound(t);
      var after := SkipSplit(p.rest);
      var z := SkipWs(p.rest);
      var e := Element(ws, v, after);
      var rest := ParseElements(t, acc).rest;
      ClosedValue(t, ws, v, after, p.rest, z);
      var more := [];
      open := false;
      if Peek(z) == ',' {
        more, open := ElementsSound(z[1..], acc + [p.v]);
        NodesAssoc(acc, [p.v], ElementValues(more));
      } else {
        assert [p.v] + [] == [p.v];
      }
      ElementsCons(e, more);
      es := [e] + more;
      OpenIs(more);
      OpenIs(es);
      ItemJoin(ws + Text(v) + after, z, ElementsText(more), more == [], open, "]", rest);
    }
  }

  lemma OpenIs(es: seq<Element>)
    ensures OpenElements(es) == if es == [] then "" else ElementsText(es) + ","
  {
    hide ElementsText;
  }

  /** A value with something after it was not cut off. */
  lemma ClosedValue(t: string, ws: string, v: Syntax, after: string, rest: string, z: string)
    requires Spells(t, ws, v, rest) && rest == after + z && z != ""
    ensures White(ws) && Loose(v) && t == ws + Text(v) + after + z
  {
    hide White, Loose, Text, OpenText, Delimited;
    assert ws + Text(v) + (after + z) == ws + Text(v) + after + z;
  }

  /** One item `x` before others: a comma between them, and the closing bracket or the end of the input behind. */
  lemma ItemJoin(x: string, z: string, items: string, last: bool, open: bool, close: string, rest: string)
    requires last ==> items == ""
    requires z == if open then "," + (if last then "" else items + ",")
                  else if last then close + rest else "," + (items + close + rest)
    ensures var all := x + (if last then "" else "," + items);
            x + z == if open then all + "," else all + close + rest
  {
    if last {
      assert x + "" == x;
      NextComma(x, "", close, rest);
    } else {
      NextComma(x, "," + items, close, rest);
      NextComma(",", items, close, rest);
    }
  }

  lemma NextComma(x: string, y: string, close: string, rest: string)
    ensures x + (y + ",") == x + y + "," && x + (y + close + rest) == x + y + close + rest && x + (close + rest) == x + close + rest
  {
  }

  // ----- objects -----

  lemma NoMembers()
    ensures LooseMembers([]) && MembersText([]) == "" && forall acc :: MemberMap([], acc) == acc
  {
  }

  /** The braces around the members. */
  lemma ObjectSpells(t: string, blank: string, ms: seq<Member>, open: bool, rest: string) returns (s: Syntax)
    requires White(blank) && LooseMembers(ms) && (open ==> rest == "")
    requires t == "{" + (blank + if open then OpenMembers(ms) else MembersText(ms) + "}" + rest)
    ensures Spells(t, "", s, rest) && Value(s) == Object(MemberMap(ms, map[]))
  {
    hide LooseMembers, MemberMap, MembersText, White;
    WhiteNone();
    if ms == [] {
      NoMembers();
      s := ObjectText(blank, []);
      assert blank + ("" + "}" + rest) == blank + "}" + rest && blank + "" == blank;
      assert "{" + (blank + "}" + rest) == "" + ("{" + blank + "}") + rest;
    } else {
      var r := MembersIndent(blank, ms);
      s := ObjectText("", r);
      var text := MembersText(ms);
      assert blank + (text + "}" + rest) == (blank + text) + "}" + rest;
      assert blank + (text + ",") == (blank + text) + ",";
      assert "{" + ((blank + text) + "}" + rest) == "" + ("{" + (blank + text) + "}") + rest;
    }
  }

  lemma {:induction false} ObjectSound(t: string) returns (s: Syntax)
    requires t != "" && t[0] == '{' && ParseObject(t).Ok?
    ensures Spells(t, "", s, ParseObject(t).rest) && Value(s) == ParseObject(t).v
    decreases |t|, 2
  {
    hide SkipWs, ParseMembers, Spells, Value, LooseMembers, MemberMap, MembersText, White;
    var ws := ExpectSound(t, '{');
    var u := Expect(t, '{').rest;
    hide Expect;
    var w := SkipWs(u);
    var blank := SkipSplit(u);
    var ms, open := [], false;
    NoMembers();
    if Peek(w) == '}' {
      assert w == "" + "}" + w[1..];
    } else {
      ms, open := MembersSound(w, map[]);
    }
    assert t == "{" + (blank + w);
    s := ObjectSpells(t, blank, ms, open, ParseObject(t).rest);
  }

  /** Key, colon and value of a member that is not cut off. */
  lemma {:induction false} MemberSound(t: string) returns (m: Member)
    requires ParseMember(t).Ok? && ParseMember(t).rest != ""
    ensures LooseMember(m) && m.after == "" && ParseMember(t).v == (Decode(m.key), Value(m.value))
    ensures t == m.before + KeyText(m) + Text(m.value) + ParseMember(t).rest
    decreases |t|, 5
  {
    hide SkipWs, ParseValue, ParseString, Spells, Value, Decode, White, LooseString, Text, Quoted;
    var before := SkipSplit(t);
    var u := SkipWs(t);
    var none, key := StringSound(u);
    var w := ParseString(u).rest;
    var colonBefore := ExpectSound(w, ':');
    var x := Expect(w, ':').rest;
    hide Expect;
    var colonAfter, v := ValueSound(x);
    var y := ParseMember(t).rest;
    assert y == ParseValue(x).rest;
    hide ParseMember;
    assert y == "" + y;
    ClosedValue(x, colonAfter, v, "", y, y);
    WhiteNone();
    m := Member(before, key, colonBefore, colonAfter, v, "");
    MemberSpells(t, m, Text(v), y);
  }

  lemma MemberSpells(t: string, m: Member, v: string, y: string)
    requires t == m.before + ("" + Quoted(m.key) + (m.colonBefore + [':'] + (m.colonAfter + v + "" + y)))
    ensures t == m.before + KeyText(m) + v + y
  {
    hide Quoted;
    assert KeyText(m) + v + y == "" + Quoted(m.key) + (m.colonBefore + [':'] + (m.colonAfter + v + "" + y));
    assert m.before + (KeyText(m) + v + y) == m.before + KeyText(m) + v + y;
  }

  /** The members the loop reads, and whether the input ended before the closing brace. */
  lemma {:induction false} MembersSound(t: string, acc: map<string, JsonNode>) returns (ms: seq<Member>, open: bool)
    requires ParseMembers(t, acc).Ok?
    ensures LooseMembers(ms) && ParseMembers(t, acc).v == Object(MemberMap(ms, acc))
    ensures var rest := ParseMembers(t, acc).rest;
            && (if open then rest == "" else ms != [])
            && t == if open then OpenMembers(ms) else MembersText(ms) + "}" + rest
    decreases |t|, 6
  {
    hide SkipWs, ParseMembers, ParseMember, Value, Decode, LooseMember, LooseMembers, MemberMap, MembersText, White, Text,
      KeyText;
    NoMembers();
    if t == "" {
      JsonParser.MembersEnd(acc);
      ms, open := [], true;
    } else {
      JsonParser.MembersUnfold(t, acc);
      var p := ParseMember(t);
      var m := MemberSound(t);
      var after := SkipSplit(p.rest);
      var z := SkipWs(p.rest);
      var rest := ParseMembers(t, acc).rest;
      var d := m.(after := after);
      FollowedMember(t, m, after, z);
      var more := [];
      open := false;
      if Peek(z) == ',' {
        more, open := MembersSound(z[1..], acc[p.v.0 := p.v.1]);
      }
      MembersCons(d, more, acc);
      ms := [d] + more;
      hide OpenMembers;
      ItemJoin(m.before + KeyText(m) + Text(m.value) + after, z, MembersText(more), more == [], open, "}", rest);
    }
  }

  lemma FollowedMember(t: string, m: Member, after: string, z: string)
    requires LooseMember(m) && White(after) && t == m.before + KeyText(m) + Text(m.value) + (after + z)
    ensures LooseMember(m.(after := after)) && KeyText(m.(after := after)) == KeyText(m)
    ensures t == m.before + KeyText(m) + Text(m.value) + after + z
  {
    hide White, Loose, LooseString, Text, Quoted;
  }

  // ----- texts that the end of the input cuts off are accepted -----

  /** What stands behind the first of several items that are all followed by a comma. */
  lemma OpenSplit(before: string, v: string, after: string, items: string, last: bool)
    requires last ==> items == ""
    ensures var more := if last then "" else items + ",";
            before + v + after + (if last then "" else "," + items) + "," == before + v + (after + [','] + more)
  {
    var x := before + v + after;
    if last {
      assert x + "" + "," == before + v + (after + [','] + "");
    } else {
      assert x + ("," + items) + "," == before + v + (after + [','] + (items + ","));
    }
  }

  lemma {:induction false} ElementsOpen(es: seq<Element>, acc: seq<JsonNode>)
    requires es != [] && LooseElements(es)
    ensures ParseElements(ElementsText(es) + ",", acc) == Ok(Array(acc + ElementValues(es)), "")
    decreases |es|
  {
    hide ParseValue, ParseElements, SkipWs, White, Loose, LooseElements, Text, Value, ElementsText, ElementValues, Delimited;
    var e, more := es[0], es[1..];
    FirstElement(es);
    assert [e] + more == es;
    ElementsCons(e, more);
    NoElements();
    var others := if more == [] then "" else ElementsText(more) + ",";
    OpenSplit(e.before, Text(e.value), e.after, ElementsText(more), more == []);
    var y := e.after + [','] + others;
    AfterValue(e.after, ',', others);
    ValueComplete(e.value, e.before, y);
    ElementsTurn(ElementsText(es) + ",", acc, Value(e.value), y, ',', others);
    if more == [] {
      JsonParser.ElementsEnd(acc + [Value(e.value)]);
      assert [Value(e.value)] + [] == [Value(e.value)];
    } else {
      ElementsOpen(more, acc + [Value(e.value)]);
      assert acc + [Value(e.value)] + ElementValues(more) == acc + ([Value(e.value)] + ElementValues(more));
    }
  }

  /** The text of a value, behind white space, is where skipping stops. */
  lemma ItemFirst(before: string, v: Syntax, y: string)
    requires White(before) && Loose(v)
    ensures var w := SkipWs(before + Text(v) + y);
            w == Text(v) + y && w != "" && Peek(w) != ']' && Peek(w) != '}'
  {
    hide White, Loose, Text, SkipWs;
    assert before + Text(v) + y == before + (Text(v) + y);
    SkipWhite(before, Text(v) + y);
    FirstChar(v);
    SkipNone(Text(v) + y);
  }

  lemma ArrayOpen(blank: string, es: seq<Element>)
    requires White(blank) && LooseElements(es)
    ensures ParseValue(OpenText(ArrayText(blank, es))) == Ok(Array(ElementValues(es)), "")
  {
    hide ParseElements, SkipWs, White, LooseElements, ElementsText, ElementValues;
    NoElements();
    WhiteNone();
    var inner := if es == [] then blank else ElementsText(es) + ",";
    var u := OpenText(ArrayText(blank, es));
    assert u == "" + ['['] + inner;
    SkipNone(u);
    ExpectFound("", '[', inner);
    if es == [] {
      assert blank + "" == blank;
      SkipWhite(blank, "");
      SkipNone("");
      JsonParser.ElementsEnd([]);
    } else {
      ElementsOpen(es, []);
      assert [] + ElementValues(es) == ElementValues(es);
      OpenBehindBracket(es);
      ElementsSkip(inner, []);
    }
  }

  lemma OpenBehindBracket(es: seq<Element>)
    requires es != [] && LooseElements(es)
    ensures var w := SkipWs(ElementsText(es) + ","); w != "" && Peek(w) != ']'
  {
    hide SkipWs, White, LooseElements, Loose, ElementsText, ElementValues, Text;
    FirstElement(es);
    var e, more := es[0], es[1..];
    assert [e] + more == es;
    ElementsCons(e, more);
    NoElements();
    OpenSplit(e.before, Text(e.value), e.after, ElementsText(more), more == []);
    ItemFirst(e.before, e.value, e.after + [','] + if more == [] then "" else ElementsText(more) + ",");
  }

  lemma {:induction false} MembersOpen(ms: seq<Member>, acc: map<string, JsonNode>)
    requires ms != [] && LooseMembers(ms)
    ensures ParseMembers(MembersText(ms) + ",", acc) == Ok(Object(MemberMap(ms, acc)), "")
    decreases |ms|
  {
    hide ParseValue, ParseMember, ParseMembers, SkipWs, White, Loose, LooseString, LooseMember, LooseMembers, Text, Value,
      MembersText, MemberMap, Delimited, KeyText, Decode;
    var m, more := ms[0], ms[1..];
    FirstLoose(ms);
    assert [m] + more == ms;
    MembersCons(m, more, acc);
    NoMembers();
    var others := if more == [] then "" else MembersText(more) + ",";
    OpenSplit(m.before + KeyText(m), Text(m.value), m.after, MembersText(more), more == []);
    var y := m.after + [','] + others;
    AfterValue(m.after, ',', others);
    ValueComplete(m.value, m.colonAfter, y);
    MemberComplete(m, y);
    assert m.before + KeyText(m) + Text(m.value) + y == m.before + KeyText(m) + (Text(m.value) + y);
    MembersTurn(MembersText(ms) + ",", acc, Decode(m.key), Value(m.value), y, ',', others);
    if more == [] {
      JsonParser.MembersEnd(acc[Decode(m.key) := Value(m.value)]);
    } else {
      MembersOpen(more, acc[Decode(m.key) := Value(m.value)]);
    }
  }

  lemma FirstLoose(ms: seq<Member>)
    requires ms != [] && LooseMembers(ms)
    ensures var m := ms[0];
            && LooseMember(m) && White(m.before) && LooseString(m.key) && White(m.colonBefore) && White(m.colonAfter)
            && Loose(m.value) && White(m.after) && LooseMembers(ms[1..])
  {
    hide White, Loose, LooseString;
  }

  lemma ObjectOpen(blank: string, ms: seq<Member>)
    requires White(blank) && LooseMembers(ms)
    ensures ParseValue(OpenText(ObjectText(blank, ms))) == Ok(Object(MemberMap(ms, map[])), "")
  {
    hide ParseMembers, SkipWs, White, LooseMembers, LooseMember, LooseString, Loose, MembersText, MemberMap, Text, KeyText;
    NoMembers();
    WhiteNone();
    var inner := if ms == [] then blank else MembersText(ms) + ",";
    var u := OpenText(ObjectText(blank, ms));
    assert u == "" + ['{'] + inner;
    SkipNone(u);
    ExpectFound("", '{', inner);
    if ms == [] {
      assert blank + "" == blank;
      SkipWhite(blank, "");
      SkipNone("");
      JsonParser.MembersEnd(map[]);
    } else {
      MembersOpen(ms, map[]);
      OpenBehindBrace(ms);
      MembersSkip(inner, map[]);
    }
  }

  lemma OpenBehindBrace(ms: seq<Member>)
    requires ms != [] && LooseMembers(ms)
    ensures var w := SkipWs(MembersText(ms) + ","); w != "" && Peek(w) == '"'
  {
    hide SkipWs, White, LooseMembers, LooseMember, LooseString, Loose, MembersText, MemberMap, Text, KeyText;
    FirstLoose(ms);
    var m, more := ms[0], ms[1..];
    assert [m] + more == ms;
    MembersCons(m, more, map[]);
    var tail := Text(m.value) + m.after + (if more == [] then "" else "," + MembersText(more)) + ",";
    assert MembersText(ms) + "," == m.before + (KeyText(m) + tail);
    SkipWhite(m.before, KeyText(m) + tail);
    KeyFirst(m);
    SkipNone(KeyText(m) + tail);
  }

  // ----- the language -----

  /** White space and escapes by character codes: 9 to 13 and 32; \n, \r and \t stand for 10, 13 and 9, any other for itself. */
  lemma CharactersExact(c: char)
    ensures IsSpace(c) <==> 9 <= c as int <= 13 || c as int == 32
    ensures Unescape(c) as int == (if c == 'n' then 10 else if c == 'r' then 13 else if c == 't' then 9 else c as int)
  {
  }

  /** The messages are never empty. */
  lemma Reported(input: string)
    ensures Parse(input).1 == "" <==> ParseValue(input).Ok?
    ensures Parse(input).1 == "" ==> Parse(input).0 == ParseValue(input).v
  {
    ValueOfSkipped(input);
    hide ParseValue;
  }

  lemma SpelledRead(input: string, ws: string, t: Syntax, rest: string)
    requires Spells(input, ws, t, rest)
    ensures ParseValue(input) == Ok(Value(t), rest)
  {
    hide ParseValue, Loose, White, Text, Delimited, LooseElements, LooseMembers;
    if input == ws + Text(t) + rest && (t.NumberText? ==> Delimited(t.n, rest)) {
      ValueComplete(t, ws, rest);
    } else {
      ValueSkips(ws, OpenText(t));
      match t
      case ArrayText(blank, es) =>
        LooseArray(t);
        ArrayOpen(blank, es);
      case ObjectText(blank, ms) =>
        LooseArray(t);
        ObjectOpen(blank, ms);
    }
  }

  lemma LooseArray(t: Syntax)
    requires Loose(t)
    ensures t.ArrayText? ==> White(t.blank) && LooseElements(t.elems) && Value(t) == Array(ElementValues(t.elems))
    ensures t.ObjectText? ==> White(t.blank) && LooseMembers(t.members) && Value(t) == Object(MemberMap(t.members, map[]))
  {
    hide White, LooseElements, LooseMembers, ElementValues, MemberMap;
  }

  /**
   The parser reports no error exactly if the input spells out a value, in the wider grammar, and what it then returns
   is the value of that text.
   */
  lemma AcceptedExact(input: string, v: JsonNode)
    ensures Parse(input) == (v, "") <==> exists ws, t, rest :: Spells(input, ws, t, rest) && Value(t) == v
  {
    hide Parse, ParseValue, Spells, Value;
    Reported(input);
    if Parse(input) == (v, "") {
      var ws, t := ValueSound(input);
      assert Spells(input, ws, t, ParseValue(input).rest) && Value(t) == v;
    }
    if ws, t, rest :| Spells(input, ws, t, rest) && Value(t) == v {
      SpelledRead(input, ws, t, rest);
    }
  }
}
