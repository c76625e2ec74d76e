/** Every value tree without doubles has a text, and the parser gives the tree back. */
module JsonRender {
  import opened Json
  import opened JsonText
  import opened Decimal

  /** Trees of objects, arrays, strings, 64-bit integers, booleans and null. */
  ghost predicate Printable(node: JsonNode) {
    match node
    case Int(i) => INT64_MIN <= i <= INT64_MAX
    case Double(_) => false
    case Object(members) => forall k | k in members :: Printable(members[k])
    case Array(elems) => forall i | 0 <= i < |elems| :: Printable(elems[i])
    case _ => true
  }

  function RenderChar(c: char): StringChar {
    if c == '"' || c == '\\' then Esc(c) else Plain(c)
  }

  function RenderString(s: string): seq<StringChar> {
    if s == "" then [] else [RenderChar(s[0])] + RenderString(s[1..])
  }

  function RenderInt(i: int): Number {
    Number(i < 0, FormatNat(if i < 0 then -i else i), [], [])
  }

  /** One of the texts of a tree: no white space, object members in any order. */
  ghost function Render(node: JsonNode): Syntax
    requires Printable(node)
    decreases node, 0
  {
    match node
    case Null => NullText
    case Bool(b) => BoolText(b)
    case Int(i) => NumberText(RenderInt(i))
    case String(s) => StringText(RenderString(s))
    case Object(members) => ObjectText("", RenderMembers(node, members.Keys))
    case Array(elems) => ArrayText("", RenderElements(node, 0))
  }

  ghost function RenderElements(node: JsonNode, i: nat): seq<Element>
    requires node.Array? && Printable(node) && i <= |node.elems|
    decreases node, 0, |node.elems| - i
  {
    if i == |node.elems| then [] else [Element("", Render(node.elems[i]), "")] + RenderElements(node, i + 1)
  }

  ghost function Pick(keys: set<string>): (k: string)
    requires keys != {}
    ensures k in keys
  {
    var k :| k in keys;
    k
  }

  ghost function RenderMembers(node: JsonNode, keys: set<string>): seq<Member>
    requires node.Object? && Printable(node) && keys <= node.members.Keys
    decreases node, 0, |keys|
  {
    if keys == {} then []
    else
      var k := Pick(keys);
      [Member("", RenderString(k), "", "", Render(node.members[k]), "")] + RenderMembers(node, keys - {k})
  }

  lemma {:induction false} RenderStringReads(s: string)
    ensures GoodString(RenderString(s)) && JsonText.Decode(RenderString(s)) == s
  {
    if s != "" {
      RenderStringReads(s[1..]);
      assert Decoded(RenderChar(s[0])) == s[0];
    }
  }

  /** A string without quotes and backslashes is rendered as itself. */
  lemma {:induction false} RenderPlain(s: string)
    requires forall i | 0 <= i < |s| :: s[i] != '"' && s[i] != '\\'
    ensures CharsText(RenderString(s)) == s
  {
    if s != "" {
      RenderPlain(s[1..]);
      assert RenderString(s)[1..] == RenderString(s[1..]);
    }
  }

  lemma RenderIntReads(i: int)
    requires INT64_MIN <= i <= INT64_MAX
    ensures GoodNumber(RenderInt(i)) && NumberNode(RenderInt(i)) == Int(i) && NumberLexeme(RenderInt(i)) == FormatInt(i)
  {
    FormatNatReads(if i < 0 then -i else i);
    FormatIntReads(i);
    assert SignedDigits(RenderInt(i)) == FormatInt(i);
  }

  lemma {:induction false} ElementsRead(node: JsonNode, i: nat)
    requires node.Array? && Printable(node) && i <= |node.elems|
    ensures GoodElements(RenderElements(node, i)) && ElementValues(RenderElements(node, i)) == node.elems[i..]
    decreases node, 0, |node.elems| - i
  {
    if i < |node.elems| {
      RenderReads(node.elems[i]);
      ElementsRead(node, i + 1);
      assert node.elems[i..] == [node.elems[i]] + node.elems[i + 1..];
    }
  }

  /** acc, with the members of `node` at the given keys put over it. */
  ghost function Over(node: JsonNode, keys: set<string>, acc: map<string, JsonNode>): map<string, JsonNode>
    requires node.Object? && keys <= node.members.Keys
  {
    acc + (map k | k in keys :: node.members[k])
  }

  lemma {:induction false} MembersRead(node: JsonNode, keys: set<string>, acc: map<string, JsonNode>)
    requires node.Object? && Printable(node) && keys <= node.members.Keys
    ensures GoodMembers(RenderMembers(node, keys)) && MemberMap(RenderMembers(node, keys), acc) == Over(node, keys, acc)
    decreases node, 0, |keys|
  {
    hide Over, Printable, Render, RenderString, Value, Good;
    if keys == {} {
      OverNone(node, acc);
    } else {
      var k := Pick(keys);
      PrintableMember(node, k);
      RenderStringReads(k);
      RenderReads(node.members[k]);
      MembersRead(node, keys - {k}, acc[k := node.members[k]]);
      OverStep(node, keys, k, acc);
    }
  }

  lemma PrintableMember(node: JsonNode, k: string)
    requires node.Object? && Printable(node) && k in node.members
    ensures Printable(node.members[k])
  {
  }

  lemma OverNone(node: JsonNode, acc: map<string, JsonNode>)
    requires node.Object?
    ensures Over(node, {}, acc) == acc
  {
  }

  lemma OverStep(node: JsonNode, keys: set<string>, k: string, acc: map<string, JsonNode>)
    requires node.Object? && keys <= node.members.Keys && k in keys
    ensures Over(node, keys - {k}, acc[k := node.members[k]]) == Over(node, keys, acc)
  {
  }

  lemma {:induction false} RenderReads(node: JsonNode)
    requires Printable(node)
    ensures Good(Render(node)) && Value(Render(node)) == node
    decreases node, 0
  {
    match node
    case Int(i) => RenderIntReads(i);
    case String(s) => RenderStringReads(s);
    case Object(members) =>
      MembersRead(node, members.Keys, map[]);
      assert Over(node, members.Keys, map[]) == members;
    case Array(elems) =>
      ElementsRead(node, 0);
      assert elems[0..] == elems;
    case _ =>
  }

  /** Printing any such tree and parsing the text, white space before it and anything after it, gives the tree. */
  lemma PrintParse(node: JsonNode, ws: string, rest: string)
    requires Printable(node) && White(ws) && (node.Int? ==> EndsNumber(rest))
    ensures Parse(ws + Text(Render(node)) + rest) == (node, "")
  {
    hide Parse, Text, Good, Value, White, EndsNumber;
    RenderReads(node);
    ParseComplete(Render(node), ws, rest);
  }
}
