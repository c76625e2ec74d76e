/**
 Exactly which configurations survive save and load: the converse of the round trip. Decoding
 a string token never raises its number of backslashes, and lowers it whenever there is an
 escape, so a string that needs escaping can only be read back out of one with more backslashes.
 */
module ConfigExact {
  import opened Json
  import opened Sequences
  import opened Decimal
  import opened ConfigManager
  import opened Printf

  function Backslashes(s: string): nat {
    if s == "" then 0 else (if s[0] == '\\' then 1 else 0) + Backslashes(s[1..])
  }

  /** Either nothing to escape, or fewer than b backslashes. */
  predicate Light(v: string, b: nat) {
    NoNul(v) && (Tame(v) || Backslashes(v) < b)
  }

  /** Every string body that can begin anywhere in t is light. */
  ghost predicate AllLight(t: string, b: nat) {
    forall k | 0 <= k <= |t| :: Light(StringBody(t[k..]).0, b)
  }

  // ----- the text that follows each string in the file stops any token -----

  const BARRIER: string := "\",\n    \""

  lemma {:induction false} TamePrefix(l: string, more: string)
    requires Tame(l) && NoNul(l)
    ensures StringBody(l + "\"" + more) == (l, "\"" + more)
    decreases |l|
  {
    if l == "" {
      assert l + "\"" + more == "\"" + more;
    } else {
      var t := l + "\"" + more;
      assert t[1..] == l[1..] + "\"" + more;
      TamePrefix(l[1..], more);
      assert t[0] == l[0] && l == [l[0]] + l[1..];
    }
  }

  lemma TameFewest(v: string)
    requires Tame(v)
    ensures Backslashes(v) == 0
  {
  }

  lemma {:induction false} LightCons(c: char, v: string, b: nat)
    requires c != '\0' && Light(v, b)
    ensures c != '"' && c != '\\' ==> Light([c] + v, b)
    ensures Backslashes([c] + v) == (if c == '\\' then 1 else 0) + Backslashes(v)
    ensures NoNul([c] + v) && Backslashes(v) <= b
  {
    if Tame(v) {
      TameFewest(v);
    }
    assert ([c] + v)[1..] == v;
  }

  /** What is left of the barrier after an escape has eaten its first c characters. */
  lemma BarrierTail(c: nat, more: string)
    requires 1 <= c <= 4
    ensures Tame(BARRIER[c..7]) && NoNul(BARRIER[c..7])
    ensures StringBody(BARRIER[c..] + more) == (BARRIER[c..7], "\"" + more)
  {
    var l := BARRIER[c..7];
    assert BARRIER[7..] == "\"";
    assert BARRIER[c..] == l + "\"";
    assert BARRIER[c..] + more == l + "\"" + more;
    TamePrefix(l, more);
  }

  /**
   A token that begins inside a string ends before the barrier does, and decodes to
   something tame or with fewer backslashes.
   */
  lemma {:induction false} Barrier(x: string, more: string)
    requires NoNul(x)
    ensures Light(StringBody(x + BARRIER + more).0, Backslashes(x))
    decreases |x|
  {
    hide BARRIER;
    var t := x + BARRIER + more;
    assert BARRIER[0] == '"' && |BARRIER| == 8 by { BarrierShape(); }
    if x == "" || x[0] == '"' {
      assert StringBody(t) == ("", t);
    } else if x[0] != '\\' {
      assert t[1..] == x[1..] + BARRIER + more;
      Barrier(x[1..], more);
      LightCons(x[0], StringBody(t[1..]).0, Backslashes(x[1..]));
    } else if |x| == 1 {
      EscapedBarrier(x, more);
    } else if x[1] != 'u' {
      assert t[2..] == x[2..] + BARRIER + more;
      Barrier(x[2..], more);
      EscapeStep(x, t, StringBody(t[2..]).0);
    } else if |x| >= 6 {
      assert t[6..] == x[6..] + BARRIER + more;
      Barrier(x[6..], more);
      UnicodeStep(x, t, StringBody(t[6..]).0);
    } else {
      UnicodeIntoBarrier(x, more);
    }
  }

  lemma BarrierShape()
    ensures |BARRIER| == 8 && BARRIER[0] == '"'
  {
  }

  lemma {:induction false} BackslashesDrop(x: string, k: nat)
    requires k <= |x|
    ensures Backslashes(x[k..]) <= Backslashes(x)
    decreases |x|
  {
    if k > 0 {
      assert x[k..] == x[1..][k - 1..];
      BackslashesDrop(x[1..], k - 1);
    } else {
      assert x[0..] == x;
    }
  }

  /** A backslash as the last character of x takes the barrier's opening quote. */
  lemma EscapedBarrier(x: string, more: string)
    requires x == "\\"
    ensures Light(StringBody(x + BARRIER + more).0, Backslashes(x))
  {
    var t := x + BARRIER + more;
    assert t[0] == '\\' && t[1] == '"';
    assert t[2..] == BARRIER[1..] + more;
    BarrierTail(1, more);
    var v := BARRIER[1..7];
    assert StringBody(t).0 == ['"'] + v;
    TameFewest(v);
    LightCons('"', v, 1);
    assert Backslashes(x) == 1 + Backslashes(x[1..]);
  }

  lemma EscapeStep(x: string, t: string, v: string)
    requires |x| >= 2 && x <= t && NoNul(x) && x[0] == '\\' && x[1] != 'u'
    requires v == StringBody(t[2..]).0 && Light(v, Backslashes(x[2..]))
    ensures Light(StringBody(t).0, Backslashes(x))
  {
    hide Backslashes;
    assert t[0] == x[0] && t[1] == x[1];
    assert StringBody(t).0 == [Unescape(x[1])] + v;
    LightCons(Unescape(x[1]), v, Backslashes(x[2..]));
    CountTwo(x);
  }

  lemma CountTwo(x: string)
    requires |x| >= 2 && x[0] == '\\'
    ensures Backslashes(x) == 1 + (if x[1] == '\\' then 1 else 0) + Backslashes(x[2..])
  {
    assert x[1..][1..] == x[2..];
  }

  lemma UnicodeStep(x: string, t: string, v: string)
    requires |x| >= 6 && x <= t && x[0] == '\\' && x[1] == 'u'
    requires v == StringBody(t[6..]).0 && Light(v, Backslashes(x[6..]))
    ensures Light(StringBody(t).0, Backslashes(x))
  {
    hide Backslashes;
    assert t[0] == x[0] && t[1] == x[1];
    assert StringBody(t).0 == "?" + v;
    LightCons('?', v, Backslashes(x[6..]));
    CountTwo(x);
    assert x[2..][4..] == x[6..];
    BackslashesDrop(x[2..], 4);
  }

  lemma UnicodeIntoBarrier(x: string, more: string)
    requires 2 <= |x| < 6 && x[0] == '\\' && x[1] == 'u'
    ensures Light(StringBody(x + BARRIER + more).0, Backslashes(x))
  {
    var t := x + BARRIER + more;
    var c := 6 - |x|;
    assert t[0] == x[0] && t[1] == x[1];
    assert t[6..] == BARRIER[c..] + more;
    BarrierTail(c, more);
    var v := BARRIER[c..7];
    hide BARRIER;
    assert StringBody(t).0 == "?" + v;
    TameFewest(v);
    LightCons('?', v, 1);
    CountTwo(x);
  }

  // ----- pieces of the file -----

  /** Neither NUL nor backslash. */
  predicate Bland(l: string) {
    forall i | 0 <= i < |l| :: l[i] != '\0' && l[i] != '\\'
  }

  lemma {:induction false} NoToken(l: string)
    requires Bland(l)
    ensures NoNul(StringBody(l).0) && Tame(StringBody(l).0)
    decreases |l|
  {
    if l != "" && l[0] != '"' {
      NoToken(l[1..]);
      var v := StringBody(l[1..]).0;
      assert StringBody(l).0 == [l[0]] + v;
    }
  }

  lemma {:induction false} LiteralBody(l: string, more: string)
    requires Bland(l) && l != "" && l[|l| - 1] == '"'
    ensures NoNul(StringBody(l + more).0) && Tame(StringBody(l + more).0)
    decreases |l|
  {
    if l[0] != '"' {
      assert (l + more)[1..] == l[1..] + more;
      LiteralBody(l[1..], more);
      var v := StringBody(l[1..] + more).0;
      assert StringBody(l + more).0 == [l[0]] + v;
    }
  }

  /** The end of the file. */
  lemma AllLightEnd(l: string, b: nat)
    requires Bland(l)
    ensures AllLight(l, b)
  {
    forall k | 0 <= k <= |l|
      ensures Light(StringBody(l[k..]).0, b)
    {
      NoToken(l[k..]);
    }
  }

  /** Fixed text up to and including an opening quote. */
  lemma AllLightLiteral(l: string, t: string, b: nat)
    requires Bland(l) && l != "" && l[|l| - 1] == '"'
    requires AllLight(t, b)
    ensures AllLight(l + t, b)
  {
    hide Light;
    forall k | 0 <= k <= |l + t|
      ensures Light(StringBody((l + t)[k..]).0, b)
    {
      if k < |l| {
        assert (l + t)[k..] == l[k..] + t;
        LiteralBody(l[k..], t);
        TameIsLight(StringBody(l[k..] + t).0, b);
      } else {
        assert (l + t)[k..] == t[k - |l|..];
      }
    }
  }

  lemma TameIsLight(v: string, b: nat)
    requires NoNul(v) && Tame(v)
    ensures Light(v, b)
  {
  }

  /** A string that has at most b backslashes. */
  lemma AllLightString(s: string, t: string, more: string, b: nat)
    requires NoNul(s) && t == BARRIER + more && AllLight(t, b) && Backslashes(s) <= b
    ensures AllLight(s + t, b)
  {
    hide Light, BARRIER;
    forall k | 0 <= k <= |s + t|
      ensures Light(StringBody((s + t)[k..]).0, b)
    {
      if k < |s| {
        var x := s[k..];
        assert (s + t)[k..] == x + BARRIER + more;
        Barrier(x, more);
        BackslashesDrop(s, k);
        Lighter(StringBody((s + t)[k..]).0, Backslashes(x), b);
      } else {
        assert (s + t)[k..] == t[k - |s|..];
      }
    }
  }

  lemma Lighter(v: string, a: nat, b: nat)
    requires Light(v, a) && a <= b
    ensures Light(v, b)
  {
  }

  // ----- every string in the parsed tree is light -----

  predicate Leaves(node: JsonNode, b: nat) {
    match node
    case String(s) => Light(s, b)
    case Object(m) => forall k | k in m :: Leaves(m[k], b)
    case Array(es) => forall i | 0 <= i < |es| :: Leaves(es[i], b)
    case _ => true
  }

  lemma AllLightDrop(t: string, b: nat, k: nat)
    requires AllLight(t, b) && k <= |t|
    ensures AllLight(t[k..], b)
  {
    hide Light, StringBody;
    forall j | 0 <= j <= |t[k..]|
      ensures Light(StringBody(t[k..][j..]).0, b)
    {
      assert t[k..][j..] == t[k + j..];
    }
  }

  lemma {:induction false} SkipLight(t: string, b: nat)
    requires AllLight(t, b)
    ensures AllLight(SkipWs(t), b)
    decreases |t|
  {
    hide AllLight;
    if t != "" && IsSpace(t[0]) {
      AllLightDrop(t, b, 1);
      SkipLight(t[1..], b);
    }
  }

  lemma ExpectLight(t: string, c: char, b: nat)
    requires AllLight(t, b) && c != '\0'
    ensures Expect(t, c).Ok? ==> AllLight(Expect(t, c).rest, b)
  {
    hide AllLight;
    SkipLight(t, b);
    if Peek(SkipWs(t)) == c {
      AllLightDrop(SkipWs(t), b, 1);
    }
  }

  lemma {:induction false} BodyLight(t: string, b: nat)
    requires AllLight(t, b)
    ensures AllLight(StringBody(t).1, b)
    decreases |t|
  {
    hide AllLight;
    if t == "" || t[0] == '"' {
    } else if t[0] != '\\' {
      AllLightDrop(t, b, 1);
      BodyLight(t[1..], b);
    } else if |t| == 1 {
      AllLightDrop(t, b, 1);
      assert t[1..] == "";
    } else if t[1] == 'u' {
      AllLightDrop(t, b, 2 + Min(4, |t| - 2));
      BodyLight(t[2 + Min(4, |t| - 2)..], b);
    } else {
      AllLightDrop(t, b, 2);
      BodyLight(t[2..], b);
    }
  }

  lemma StringLight(t: string, b: nat)
    requires AllLight(t, b)
    ensures var p := ParseString(t);
            p.Ok? ==> Light(p.v, b) && AllLight(p.rest, b)
  {
    hide AllLight, StringBody, Expect, Light;
    ExpectLight(t, '"', b);
    var p := Expect(t, '"');
    if p.Ok? {
      BodyLight(p.rest, b);
      WholeLight(p.rest, b);
      ExpectLight(StringBody(p.rest).1, '"', b);
    }
  }

  lemma WholeLight(t: string, b: nat)
    requires AllLight(t, b)
    ensures Light(StringBody(t).0, b)
  {
    hide Light, StringBody;
    assert t[0..] == t;
  }

  lemma NumberLight(t: string, b: nat)
    requires AllLight(t, b) && (Peek(t) == '-' || IsDigit(Peek(t)))
    ensures AllLight(ParseNumber(t).rest, b) && Leaves(ParseNumber(t).v, b)
  {
    hide AllLight, IntegerLength, FractionLength, ExponentLength, Atoll;
    var n := IntegerLength(t);
    var f := FractionLength(t[n..]);
    AllLightDrop(t, b, n + f + ExponentLength(t[n + f..]));
  }

  lemma WordLight(t: string, b: nat)
    requires AllLight(t, b)
    ensures ParseBool(t).Ok? ==> AllLight(ParseBool(t).rest, b) && Leaves(ParseBool(t).v, b)
    ensures ParseNull(t).Ok? ==> AllLight(ParseNull(t).rest, b) && Leaves(ParseNull(t).v, b)
  {
    hide AllLight;
    if |t| >= 4 {
      AllLightDrop(t, b, 4);
    }
    if |t| >= 5 {
      AllLightDrop(t, b, 5);
    }
  }

  ghost predicate LightResult(p: Parsed<JsonNode>, b: nat) {
    p.Ok? ==> Leaves(p.v, b) && AllLight(p.rest, b)
  }

  lemma {:induction false} ValueLight(t: string, b: nat)
    requires AllLight(t, b)
    ensures LightResult(ParseValue(t), b)
    decreases |t|, 3
  {
    hide AllLight, ParseString, ParseObject, ParseArray, ParseNumber, ParseBool, ParseNull, Light;
    var u := SkipWs(t);
    SkipLight(t, b);
    var c := Peek(u);
    if c == '"' {
      StringLight(u, b);
    } else if c == '{' {
      ObjectLight(u, b);
    } else if c == '[' {
      ArrayLight(u, b);
    } else if c == 't' || c == 'f' || c == 'n' {
      WordLight(u, b);
    } else if c == '-' || IsDigit(c) {
      NumberLight(u, b);
    }
  }

  lemma {:induction false} ObjectLight(t: string, b: nat)
    requires AllLight(t, b)
    ensures LightResult(ParseObject(t), b)
    decreases |t|, 2
  {
    hide AllLight, ParseMembers, Expect, SkipWs;
    ExpectLight(t, '{', b);
    var p := Expect(t, '{');
    if p.Ok? {
      SkipLight(p.rest, b);
      var w := SkipWs(p.rest);
      if Peek(w) == '}' {
        AllLightDrop(w, b, 1);
      } else {
        MembersLight(w, map[], b);
      }
    }
  }

  lemma {:induction false} MemberLight(t: string, b: nat)
    requires AllLight(t, b)
    ensures var p := ParseMember(t);
            p.Ok? ==> Leaves(p.v.1, b) && AllLight(p.rest, b)
    decreases |t|, 4
  {
    hide AllLight, ParseString, ParseValue, Expect, SkipWs, Leaves, Light;
    var u := SkipWs(t);
    SkipLight(t, b);
    if Peek(u) == '"' {
      StringLight(u, b);
      var k := ParseString(u);
      if k.Ok? {
        ExpectLight(k.rest, ':', b);
        var x := Expect(k.rest, ':');
        if x.Ok? {
          ValueLight(x.rest, b);
        }
      }
    }
  }

  lemma {:induction false} MembersLight(t: string, acc: map<string, JsonNode>, b: nat)
    requires AllLight(t, b) && forall k | k in acc :: Leaves(acc[k], b)
    ensures LightResult(ParseMembers(t, acc), b)
    decreases |t|, 5
  {
    hide AllLight, ParseMember, SkipWs, Light;
    if t != "" {
      MemberLight(t, b);
      var p := ParseMember(t);
      if p.Ok? {
        var acc' := acc[p.v.0 := p.v.1];
        SkipLight(p.rest, b);
        var z := SkipWs(p.rest);
        if Peek(z) == ',' || Peek(z) == '}' {
          AllLightDrop(z, b, 1);
          if Peek(z) == ',' {
            MembersLight(z[1..], acc', b);
          }
        }
      }
    }
  }

  lemma {:induction false} ArrayLight(t: string, b: nat)
    requires AllLight(t, b)
    ensures LightResult(ParseArray(t), b)
    decreases |t|, 2
  {
    hide AllLight, ParseElements, Expect, SkipWs;
    ExpectLight(t, '[', b);
    var p := Expect(t, '[');
    if p.Ok? {
      SkipLight(p.rest, b);
      var w := SkipWs(p.rest);
      if Peek(w) == ']' {
        AllLightDrop(w, b, 1);
      } else {
        ElementsLight(w, [], b);
      }
    }
  }

  lemma {:induction false} ElementsLight(t: string, acc: seq<JsonNode>, b: nat)
    requires AllLight(t, b) && forall i | 0 <= i < |acc| :: Leaves(acc[i], b)
    ensures LightResult(ParseElements(t, acc), b)
    decreases |t|, 4
  {
    hide AllLight, ParseValue, SkipWs, Light;
    if t != "" {
      ValueLight(t, b);
      var p := ParseValue(t);
      if p.Ok? {
        SkipLight(p.rest, b);
        var z := SkipWs(p.rest);
        if Peek(z) == ',' || Peek(z) == ']' {
          AllLightDrop(z, b, 1);
          if Peek(z) == ',' {
            ElementsLight(z[1..], acc + [p.v], b);
          }
        }
      }
    }
  }

  // ----- the file -----

  lemma {:induction false} CStrFacts(s: string)
    ensures NoNul(CStr(s)) && (NoNul(s) ==> CStr(s) == s)
  {
    if s != "" && s[0] != '\0' {
      CStrFacts(s[1..]);
      assert s == [s[0]] + s[1..];
      assert NoNul(s) ==> NoNul(s[1..]);
    }
  }

  lemma {:induction false} FormatNatBland(n: nat)
    ensures Bland(FormatNat(n))
  {
    if n >= 10 {
      FormatNatBland(n / 10);
    }
  }

  lemma FormatIntBland(i: int)
    ensures Bland(FormatInt(i))
  {
    FormatNatBland(if i < 0 then -i else i);
  }

  lemma BlandConcat(a: string, b: string)
    requires Bland(a) && Bland(b)
    ensures Bland(a + b)
  {
  }

  /** From the closing quote of a string through the next field's number: quote, comma, label, number, `end`. */
  function AfterString(name: string, i: int, end: string): string {
    "\",\n" + Label(name) + FormatInt(i) + end
  }

  lemma AfterStringFacts(name: string, i: int, end: string, rest: string)
    requires Bland(name) && Bland(end)
    ensures Bland(AfterString(name, i, end))
    ensures AfterString(name, i, end) + rest == BARRIER + (name + "\": " + FormatInt(i) + end + rest)
  {
    FormatIntBland(i);
    BlandConcat("\",\n" + Label(name), FormatInt(i));
    BlandConcat("\",\n" + Label(name) + FormatInt(i), end);
    hide FormatInt;
    assert "\",\n" + Label(name) == BARRIER + (name + "\": ");
    hide BARRIER, Label;
  }

  /** The camera's two further numbers and the way to the network's string. */
  function CameraEnd(c: CameraConf): string {
    ",\n" + Label("height") + FormatInt(c.height) + ",\n" + Label("fps") + FormatInt(c.fps) + "\n  }"
    + ",\n" + Head("network") + Label("bind") + "\""
  }

  function NetworkEnd(): string {
    "\n  }" + ",\n" + Head("serial") + Label("device") + "\""
  }

  function SerialEnd(): string {
    "\n  }" + "\n}\n"
  }

  function Opening(): string {
    "{\n" + Head("camera") + Label("device") + "\""
  }

  lemma CameraEndBland(c: CameraConf)
    ensures Bland(CameraEnd(c)) && CameraEnd(c) != "" && CameraEnd(c)[|CameraEnd(c)| - 1] == '"'
  {
    FormatIntBland(c.height);
    FormatIntBland(c.fps);
    var a := ",\n" + Label("height");
    var b := ",\n" + Label("fps");
    var d := "\n  }" + ",\n" + Head("network") + Label("bind") + "\"";
    assert Bland(a) && Bland(b) && Bland(d) && d[|d| - 1] == '"';
    assert CameraEnd(c) == a + FormatInt(c.height) + b + FormatInt(c.fps) + d by {
      hide Label, Head, FormatInt;
    }
    hide CameraEnd, FormatInt;
    BlandConcat(a, FormatInt(c.height));
    BlandConcat(a + FormatInt(c.height), b);
    BlandConcat(a + FormatInt(c.height) + b, FormatInt(c.fps));
    BlandConcat(a + FormatInt(c.height) + b + FormatInt(c.fps), d);
  }

  lemma FixedBland()
    ensures Bland(NetworkEnd()) && NetworkEnd()[|NetworkEnd()| - 1] == '"'
    ensures Bland(SerialEnd())
    ensures Bland(Opening()) && Opening()[|Opening()| - 1] == '"'
  {
  }

  lemma TailAssoc(x: string, a: string, b: string, c: string, d: string, e: string, f: string, g: string)
    ensures x + a + b + c + d + e + f + g == x + (a + b + c + d + e + f + g)
  {
    assert x + a + b + c == x + (a + b + c);
    var y := a + b + c;
    assert x + y + d + e + f + g == x + (y + d + e + f + g);
  }

  /** A block and what follows it, regrouped around its string. */
  lemma AroundString(p: string, h: string, l: string, s: string, l': string, v: string, m: string, tail: string)
    ensures p + (h + l + ("\"" + s + "\"") + ",\n" + l' + v + m) + tail
            == (p + h + l + "\"") + (s + (("\",\n" + l' + v) + (m + tail)))
  {
    var left, right := p + h + l + "\"", "\",\n" + l' + v;
    assert h + l + ("\"" + s + "\"") + ",\n" + l' + v + m == (h + l + "\"") + s + (right + m) by {
      assert "\"" + ",\n" == "\",\n";
    }
    assert p + ((h + l + "\"") + s + (right + m)) + tail == left + (s + (right + (m + tail)));
  }

  /** The camera's numbers after the first. */
  function CameraRest(c: CameraConf): string {
    ",\n" + Label("height") + FormatInt(c.height) + ",\n" + Label("fps") + FormatInt(c.fps) + "\n  }"
  }

  lemma CameraBlockIs(c: CameraConf)
    ensures CameraBlock(c)
            == Head("camera") + Label("device") + ("\"" + CStr(c.device) + "\"") + ",\n" + Label("width") + FormatInt(c.width)
               + CameraRest(c)
  {
    hide Label, Head, FormatInt, CStr;
    var x := Head("camera") + Label("device") + ("\"" + CStr(c.device) + "\"") + ",\n" + Label("width") + FormatInt(c.width);
    TailAssoc(x, ",\n", Label("height"), FormatInt(c.height), ",\n", Label("fps"), FormatInt(c.fps), "\n  }");
  }

  /** The file as fixed text alternating with the three strings. */
  lemma FilePieces(c: Config)
    ensures Saved(c)
            == Opening() + (CStr(c.camera.device) + (AfterString("width", c.camera.width, CameraEnd(c.camera))
               + (CStr(c.network.bind) + (AfterString("port", c.network.port, NetworkEnd())
               + (CStr(c.serial.device) + AfterString("baud", c.serial.baud, SerialEnd()))))))
  {
    hide Label, Head, FormatInt, CStr, CameraBlock;
    CameraBlockIs(c.camera);
    var (s1, s2, s3) := (CStr(c.camera.device), CStr(c.network.bind), CStr(c.serial.device));
    var (v1, v2, v3) := (FormatInt(c.camera.width), FormatInt(c.network.port), FormatInt(c.serial.baud));
    var t3 := "\n}\n";
    var t2 := ",\n" + SerialBlock(c.serial) + t3;
    var t1 := ",\n" + NetworkBlock(c.network) + t2;
    SavedTail(CameraBlock(c.camera), NetworkBlock(c.network), SerialBlock(c.serial));
    var m := CameraRest(c.camera);
    AroundString("{\n", Head("camera"), Label("device"), s1, Label("width"), v1, m, t1);
    AroundString(m + ",\n", Head("network"), Label("bind"), s2, Label("port"), v2, "\n  }", t2);
    AroundString("\n  }" + ",\n", Head("serial"), Label("device"), s3, Label("baud"), v3, "\n  }", t3);
    assert m + t1 == m + ",\n" + NetworkBlock(c.network) + t2;
    assert "\n  }" + t2 == "\n  }" + ",\n" + SerialBlock(c.serial) + t3;
    hide NetworkBlock, SerialBlock;
    var w1, w2 := "\",\n" + Label("width") + v1, "\",\n" + Label("port") + v2;
    var e1, e2 := CameraEnd(c.camera), NetworkEnd();
    assert AfterString("width", c.camera.width, e1) == w1 + e1;
    assert AfterString("port", c.network.port, e2) == w2 + e2;
    assert AfterString("baud", c.serial.baud, SerialEnd()) == ("\",\n" + Label("baud") + v3) + ("\n  }" + t3);
    var z := s3 + AfterString("baud", c.serial.baud, SerialEnd());
    assert "\n  }" + t2 == e2 + z;
    assert w2 + (e2 + z) == w2 + e2 + z;
    assert m + t1 == e1 + (s2 + (w2 + e2 + z));
    assert w1 + (e1 + (s2 + (w2 + e2 + z))) == w1 + e1 + (s2 + (w2 + e2 + z));
  }

  lemma SavedTail(p: string, q: string, r: string)
    ensures "{\n" + p + ",\n" + q + ",\n" + r + "\n}\n" == "{\n" + p + (",\n" + q + (",\n" + r + "\n}\n"))
  {
  }

  /** One string and the fixed text up to the next one. */
  lemma StringThenText(s: string, name: string, i: int, end: string, rest: string, b: nat)
    requires Bland(name) && Bland(end) && end != "" && end[|end| - 1] == '"'
    requires NoNul(s) && Backslashes(s) <= b && AllLight(rest, b)
    ensures AllLight(s + (AfterString(name, i, end) + rest), b)
  {
    AfterStringFacts(name, i, end, rest);
    AfterStringEnds(name, i, end);
    hide AfterString, AllLight, Bland, BARRIER;
    AllLightLiteral(AfterString(name, i, end), rest, b);
    AllLightString(s, AfterString(name, i, end) + rest, name + "\": " + FormatInt(i) + end + rest, b);
  }

  lemma AfterStringEnds(name: string, i: int, end: string)
    requires end != ""
    ensures AfterString(name, i, end) != "" && AfterString(name, i, end)[|AfterString(name, i, end)| - 1] == end[|end| - 1]
  {
    hide Label, FormatInt;
  }

  lemma NamesBland()
    ensures Bland("width") && Bland("port") && Bland("baud")
  {
  }

  /** b bounds the backslashes of the three strings as printed. */
  predicate AtMost(c: Config, b: nat) {
    Backslashes(CStr(c.camera.device)) <= b && Backslashes(CStr(c.network.bind)) <= b && Backslashes(CStr(c.serial.device)) <= b
  }

  lemma FileLight(c: Config, b: nat)
    requires AtMost(c, b)
    ensures AllLight(Saved(c), b)
  {
    FilePieces(c);
    NamesBland();
    FixedBland();
    CameraEndBland(c.camera);
    CStrFacts(c.camera.device);
    CStrFacts(c.network.bind);
    CStrFacts(c.serial.device);
    AfterStringFacts("baud", c.serial.baud, SerialEnd(), "");
    hide Saved, CStr, Opening, CameraEnd, NetworkEnd, SerialEnd, AfterString, AllLight, Bland, BARRIER, Backslashes, NoNul;
    var last := AfterString("baud", c.serial.baud, SerialEnd());
    assert last + "" == last;
    AllLightEnd(last, b);
    AllLightString(CStr(c.serial.device), last, "baud" + "\": " + FormatInt(c.serial.baud) + SerialEnd() + "", b);
    var t3 := CStr(c.serial.device) + last;
    StringThenText(CStr(c.network.bind), "port", c.network.port, NetworkEnd(), t3, b);
    var t2 := CStr(c.network.bind) + (AfterString("port", c.network.port, NetworkEnd()) + t3);
    StringThenText(CStr(c.camera.device), "width", c.camera.width, CameraEnd(c.camera), t2, b);
    var t1 := CStr(c.camera.device) + (AfterString("width", c.camera.width, CameraEnd(c.camera)) + t2);
    AllLightLiteral(Opening(), t1, b);
  }

  // ----- what a restoring load implies -----

  lemma LoadedLight(c: Config, prior: Config, trunc: string -> int, b: nat)
    requires AllLight(Saved(c), b) && Loaded(Content(Saved(c)), prior, trunc) == (c, true)
    requires prior.camera.device != c.camera.device && prior.network.bind != c.network.bind
    requires prior.serial.device != c.serial.device
    ensures Light(c.camera.device, b) && Light(c.network.bind, b) && Light(c.serial.device, b)
  {
    hide AllLight, Saved, Light, ParseValue;
    var text := Saved(c);
    SkipLight(text, b);
    ValueLight(SkipWs(text), b);
    var root := Parse(text).0;
    assert Leaves(root, b);
    hide Parse;
    LeavesAt(root, "camera", b);
    LeavesAt(root, "network", b);
    LeavesAt(root, "serial", b);
    LeavesAt(root.At("camera"), "device", b);
    LeavesAt(root.At("network"), "bind", b);
    LeavesAt(root.At("serial"), "device", b);
  }

  lemma LeavesAt(node: JsonNode, key: string, b: nat)
    requires Leaves(node, b)
    ensures Leaves(node.At(key), b)
    ensures node.At(key).String? ==> Light(node.At(key).s, b)
  {
  }

  function Max(a: nat, b: nat): nat {
    if a < b then b else a
  }

  lemma LightIsClean(s: string, b: nat)
    requires Light(s, b)
    ensures CStr(s) == s && (Tame(s) ==> Clean(s)) && (!Tame(s) ==> Backslashes(CStr(s)) < b)
  {
    CStrFacts(s);
  }

  /** A state from which each of the strings has to be loaded. */
  function Other(c: Config): Config {
    Config(c.camera.(device := c.camera.device + "x"), c.network.(bind := c.network.bind + "x"),
           c.serial.(device := c.serial.device + "x"))
  }

  lemma OtherDiffers(c: Config)
    ensures Other(c).camera.device != c.camera.device && Other(c).network.bind != c.network.bind
    ensures Other(c).serial.device != c.serial.device
  {
    assert |Other(c).camera.device| == |c.camera.device| + 1;
    assert |Other(c).network.bind| == |c.network.bind| + 1;
    assert |Other(c).serial.device| == |c.serial.device| + 1;
  }

  lemma RestoredIsClean(c: Config, trunc: string -> int)
    requires Loaded(Content(Saved(c)), Other(c), trunc) == (c, true)
    ensures CleanConfig(c)
  {
    hide Loaded, Saved, Light, CStr, Tame, Clean, Backslashes, AllLight, Other;
    var (s1, s2, s3) := (c.camera.device, c.network.bind, c.serial.device);
    var b := Max(Backslashes(CStr(s1)), Max(Backslashes(CStr(s2)), Backslashes(CStr(s3))));
    FileLight(c, b);
    OtherDiffers(c);
    LoadedLight(c, Other(c), trunc, b);
    LightIsClean(s1, b);
    LightIsClean(s2, b);
    LightIsClean(s3, b);
    HeaviestIsTame(s1, b);
    HeaviestIsTame(s2, b);
    HeaviestIsTame(s3, b);
  }

  /** A string with as many backslashes as the bound can only be light by being tame, and then the bound is zero. */
  lemma HeaviestIsTame(s: string, b: nat)
    requires Light(s, b)
    ensures Backslashes(s) == b ==> Tame(s) && b == 0
  {
    if Tame(s) {
      TameFewest(s);
    }
  }

  /**
   A saved configuration is restored from every prior state if and only if none of its
   three strings contains a quote, a backslash or a NUL.
   */
  lemma RestoresExactly(c: Config, trunc: string -> int)
    ensures (forall prior :: Loaded(Content(Saved(c)), prior, trunc) == (c, true)) <==> CleanConfig(c)
  {
    hide Loaded, Saved, CleanConfig, Other;
    if CleanConfig(c) {
      forall prior
        ensures Loaded(Content(Saved(c)), prior, trunc) == (c, true)
      {
        SaveLoadRoundTrip(c, prior, trunc);
      }
    }
    if Loaded(Content(Saved(c)), Other(c), trunc) == (c, true) {
      RestoredIsClean(c, trunc);
    }
  }
}
