/** JSON values, and the recursive-descent parser as functions on the text that remains. */
module Json {
  import opened Sequences

  /** Numbers with a fraction or an exponent keep their lexeme: its conversion to double is library code. */
  datatype JsonNode =
    | Null
    | Bool(b: bool)
    | Int(i: int)
    | Double(lexeme: string)
    | String(s: string)
    | Object(members: map<string, JsonNode>)
    | Array(elems: seq<JsonNode>)
  {
    function StringOr(def: string): string {
      if String? then s else def
    }

    /** `trunc` stands for atof followed by the cast to an integer. */
    function IntOr(def: int, trunc: string -> int): int {
      match this
      case Int(i) => i
      case Double(lexeme) => trunc(lexeme)
      case _ => def
    }

    predicate Has(key: string) {
      Object? && key in members
    }

    /** operator[]: a missing key, or a node that is not an object, gives the null node. */
    function At(key: string): JsonNode {
      if Has(key) then members[key] else Null
    }
  }

  datatype Parsed<+T> = Ok(v: T, rest: string) | Err(msg: string)

  // ----- lexical level -----

  /** std::isspace in the C locale. */
  predicate IsSpace(c: char) {
    c == ' ' || c == '\t' || c == '\n' || c == '\U{0B}' || c == '\U{0C}' || c == '\r'
  }

  predicate IsDigit(c: char) {
    '0' <= c <= '9'
  }

  function SkipWs(t: string): (u: string)
    ensures |u| <= |t|
  {
    if t != "" && IsSpace(t[0]) then SkipWs(t[1..]) else t
  }

  /** The next character, or NUL at the end of the text. */
  function Peek(t: string): char {
    if t == "" then '\0' else t[0]
  }

  function Expect(t: string, c: char): (r: Parsed<()>)
    requires c != '\0'
    ensures r.Ok? ==> |r.rest| < |t|
    ensures r.Err? ==> r.msg != ""
  {
    var u := SkipWs(t);
    if Peek(u) != c then Err("expected " + [c]) else Ok((), u[1..])
  }

  /** What a backslash followed by `e` adds to a string; `u` is handled apart. */
  function Unescape(e: char): char {
    match e
    case 'n' => '\n'
    case 'r' => '\r'
    case 't' => '\t'
    case _ => e
  }

  /** The characters up to the closing quote or the end of the text, decoded; a backslash at the very end gives NUL. */
  function StringBody(t: string): (r: (string, string))
    ensures |r.1| <= |t|
    decreases |t|
  {
    if t == "" || t[0] == '"' then ("", t)
    else if t[0] != '\\' then
      var (r, rest) := StringBody(t[1..]);
      ([t[0]] + r, rest)
    else if |t| == 1 then ("\0", "")
    else if t[1] == 'u' then
      var (r, rest) := StringBody(t[2 + Min(4, |t| - 2)..]);
      ("?" + r, rest)
    else
      var (r, rest) := StringBody(t[2..]);
      ([Unescape(t[1])] + r, rest)
  }

  function ParseString(t: string): (r: Parsed<string>)
    ensures r.Ok? ==> |r.rest| < |t|
    ensures r.Err? ==> r.msg != ""
  {
    match Expect(t, '"')
    case Err(m) => Err(m)
    case Ok(_, u) =>
      var (body, w) := StringBody(u);
      match Expect(w, '"')
      case Err(m) => Err(m)
      case Ok(_, rest) => Ok(body, rest)
  }

  function DigitCount(t: string): (n: nat)
    ensures n <= |t|
  {
    if t != "" && IsDigit(t[0]) then 1 + DigitCount(t[1..]) else 0
  }

  /** The lengths of the three parts of a number: sign and digits, fraction, exponent. */
  function IntegerLength(t: string): (n: nat)
    ensures n <= |t|
  {
    var sign := if Peek(t) == '-' then 1 else 0;
    sign + DigitCount(t[sign..])
  }

  function FractionLength(t: string): (n: nat)
    ensures n <= |t|
  {
    if Peek(t) == '.' then 1 + DigitCount(t[1..]) else 0
  }

  function ExponentLength(t: string): (n: nat)
    ensures n <= |t|
  {
    if Peek(t) == 'e' || Peek(t) == 'E' then
      var m := if Peek(t[1..]) == '+' || Peek(t[1..]) == '-' then 2 else 1;
      m + DigitCount(t[m..])
    else 0
  }

  const INT64_MIN: int := -0x8000_0000_0000_0000
  const INT64_MAX: int := 0x7FFF_FFFF_FFFF_FFFF

  function DigitValue(c: char): nat
    requires IsDigit(c)
  {
    c as int - '0' as int
  }

  predicate AllDigits(s: string) {
    forall i | 0 <= i < |s| :: IsDigit(s[i])
  }

  function DigitsValue(s: string): nat
    requires AllDigits(s)
  {
    if s == "" then 0 else 10 * DigitsValue(s[..|s| - 1]) + DigitValue(s[|s| - 1])
  }

  function Clamp64(v: int): int {
    if v < INT64_MIN then INT64_MIN else if v > INT64_MAX then INT64_MAX else v
  }

  /** atoll of an optional minus and digits; beyond 64 bits C leaves the result open, taken here as saturating. */
  function Atoll(s: string): int {
    var neg := Peek(s) == '-';
    var digits := if neg then s[1..] else s;
    if !AllDigits(digits) then 0 else Clamp64(if neg then 0 - DigitsValue(digits) else DigitsValue(digits))
  }

  function ParseNumber(t: string): (r: Parsed<JsonNode>)
    requires Peek(t) == '-' || IsDigit(Peek(t))
    ensures r.Ok? && |r.rest| < |t|
  {
    var n := IntegerLength(t);
    var f := FractionLength(t[n..]);
    var e := ExponentLength(t[n + f..]);
    var len := n + f + e;
    Ok(if f > 0 || e > 0 then Double(t[..len]) else Int(Atoll(t[..len])), t[len..])
  }

  function ParseBool(t: string): (r: Parsed<JsonNode>)
    ensures r.Ok? ==> |r.rest| < |t|
    ensures r.Err? ==> r.msg != ""
  {
    if "true" <= t then Ok(Bool(true), t[4..])
    else if "false" <= t then Ok(Bool(false), t[5..])
    else Err("expected bool")
  }

  function ParseNull(t: string): (r: Parsed<JsonNode>)
    ensures r.Ok? ==> |r.rest| < |t|
    ensures r.Err? ==> r.msg != ""
  {
    if "null" <= t then Ok(Null, t[4..]) else Err("expected null")
  }

  // ----- values -----

  function ParseValue(t: string): (r: Parsed<JsonNode>)
    ensures r.Ok? ==> |r.rest| < |t|
    ensures r.Err? ==> r.msg != ""
    decreases |t|, 3
  {
    var u := SkipWs(t);
    var c := Peek(u);
    if c == '"' then
      (match ParseString(u) case Ok(s, rest) => Ok(String(s), rest) case Err(m) => Err(m))
    else if c == '{' then ParseObject(u)
    else if c == '[' then ParseArray(u)
    else if c == 't' || c == 'f' then ParseBool(u)
    else if c == 'n' then ParseNull(u)
    else if c == '-' || IsDigit(c) then ParseNumber(u)
    else Err("unexpected char")
  }

  function ParseObject(t: string): (r: Parsed<JsonNode>)
    ensures r.Ok? ==> |r.rest| < |t|
    ensures r.Err? ==> r.msg != ""
    decreases |t|, 2
  {
    match Expect(t, '{')
    case Err(m) => Err(m)
    case Ok(_, u) =>
      var w := SkipWs(u);
      if Peek(w) == '}' then Ok(Object(map[]), w[1..]) else ParseMembers(w, map[])
  }

  function ParseMember(t: string): (r: Parsed<(string, JsonNode)>)
    ensures r.Ok? ==> |r.rest| < |t|
    ensures r.Err? ==> r.msg != ""
    decreases |t|, 4
  {
    var u := SkipWs(t);
    if Peek(u) != '"' then Err("expected key")
    else
      match ParseString(u)
      case Err(m) => Err(m)
      case Ok(k, w) =>
        match Expect(w, ':')
        case Err(m) => Err(m)
        case Ok(_, x) =>
          match ParseValue(x)
          case Err(m) => Err(m)
          case Ok(v, y) => Ok((k, v), y)
  }

  /** The member loop; input that ends between members ends the object. */
  function ParseMembers(t: string, acc: map<string, JsonNode>): (r: Parsed<JsonNode>)
    ensures r.Ok? ==> |r.rest| <= |t|
    ensures r.Err? ==> r.msg != ""
    decreases |t|, 5
  {
    if t == "" then Ok(Object(acc), "")
    else
      match ParseMember(t)
      case Err(m) => Err(m)
      case Ok((k, v), y) =>
        var z := SkipWs(y);
        if Peek(z) == ',' then ParseMembers(z[1..], acc[k := v])
        else if Peek(z) == '}' then Ok(Object(acc[k := v]), z[1..])
        else Err("expected , or }")
  }

  function ParseArray(t: string): (r: Parsed<JsonNode>)
    ensures r.Ok? ==> |r.rest| < |t|
    ensures r.Err? ==> r.msg != ""
    decreases |t|, 2
  {
    match Expect(t, '[')
    case Err(m) => Err(m)
    case Ok(_, u) =>
      var w := SkipWs(u);
      if Peek(w) == ']' then Ok(Array([]), w[1..]) else ParseElements(w, [])
  }

  function ParseElements(t: string, acc: seq<JsonNode>): (r: Parsed<JsonNode>)
    ensures r.Ok? ==> |r.rest| <= |t|
    ensures r.Err? ==> r.msg != ""
    decreases |t|, 4
  {
    if t == "" then Ok(Array(acc), "")
    else
      match ParseValue(t)
      case Err(m) => Err(m)
      case Ok(v, y) =>
        var z := SkipWs(y);
        if Peek(z) == ',' then ParseElements(z[1..], acc + [v])
        else if Peek(z) == ']' then Ok(Array(acc + [v]), z[1..])
        else Err("expected , or ]")
  }

  /** json::parse: the tree, or the null node and a message. */
  function Parse(input: string): (JsonNode, string) {
    match ParseValue(SkipWs(input))
    case Ok(v, _) => (v, "")
    case Err(m) => (Null, m)
  }
}
