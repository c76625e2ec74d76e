/** detail::Parser: a position that moves through the text, proved against the functions of Json. */
module JsonParser {
  import opened Json
  import opened Sequences

  /** A value, or the message of the exception thrown. */
  datatype Result<+T> = Success(value: T) | Failure(error: string) {
    predicate IsFailure() {
      Failure?
    }

    function PropagateFailure<U>(): Result<U>
      requires Failure?
    {
      Failure(error)
    }

    function Extract(): T
      requires Success?
    {
      value
    }
  }

  /** The method's result, and the text left when it succeeds, are what the specification says. */
  predicate Agrees<T(==)>(r: Result<T>, rest: string, spec: Parsed<T>) {
    match spec
    case Ok(v, w) => r == Success(v) && rest == w
    case Err(m) => r == Failure(m)
  }

  class Parser {
    const s: string
    var pos: nat

    constructor (s: string)
      ensures this.s == s && pos == 0
    {
      this.s := s;
      pos := 0;
    }

    ghost predicate Valid()
      reads this
    {
      pos <= |s|
    }

    /** The text not yet consumed. */
    ghost function Rest(): string
      requires Valid()
      reads this
    {
      s[pos..]
    }

    method SkipWhite()
      requires Valid()
      modifies this`pos
      ensures Valid() && Rest() == SkipWs(old(Rest())) && pos >= old(pos)
    {
      while pos < |s| && IsSpace(s[pos])
        invariant Valid() && pos >= old(pos)
        invariant SkipWs(Rest()) == SkipWs(old(Rest()))
      {
        assert Rest()[1..] == s[pos + 1..];
        pos := pos + 1;
      }
    }

    function PeekChar(): (c: char)
      requires Valid()
      reads this
      ensures c == Peek(Rest()) && (c != '\0' ==> pos < |s|)
    {
      if pos < |s| then s[pos] else '\0'
    }

    method Advance()
      requires Valid() && pos < |s|
      modifies this`pos
      ensures Valid() && pos == old(pos) + 1 && Rest() == old(Rest())[1..]
    {
      pos := pos + 1;
    }

    lemma AtEnd()
      requires Valid()
      ensures pos == |s| <==> Rest() == ""
    {
    }

    method Consume() returns (c: char)
      requires Valid()
      modifies this`pos
      ensures Valid() && c == Peek(old(Rest()))
      ensures Rest() == if old(Rest()) == "" then "" else old(Rest())[1..]
      ensures pos == if old(pos) < |s| then old(pos) + 1 else old(pos)
    {
      if pos < |s| {
        c := s[pos];
        pos := pos + 1;
      } else {
        c := '\0';
      }
    }

    method ExpectChar(c: char) returns (r: Result<()>)
      requires Valid() && c != '\0'
      modifies this`pos
      ensures Valid() && pos >= old(pos) && Agrees(r, Rest(), Expect(old(Rest()), c))
    {
      SkipWhite();
      if PeekChar() != c {
        return Failure("expected " + [c]);
      }
      pos := pos + 1;
      return Success(());
    }

    /** The switch on the character after a backslash: what it adds to the string. */
    method ReadEscape() returns (c: char)
      requires Valid()
      modifies this`pos
      ensures Valid() && pos >= old(pos)
      ensures if old(pos) == |s| then c == '\0' && pos == |s|
              else if s[old(pos)] == 'u' then c == '?' && pos == old(pos) + 1 + Min(4, |s| - old(pos) - 1)
              else c == Unescape(s[old(pos)]) && pos == old(pos) + 1
    {
      var e := Consume();
      if e == 'u' {
        ghost var start := pos;
        var i := 0;
        while i < 4 && pos < |s|
          invariant 0 <= i <= 4 && Valid() && pos == start + i
        {
          var _ := Consume();
          i := i + 1;
        }
        return '?';
      }
      return Unescape(e);
    }

    method ReadString() returns (r: Result<string>)
      requires Valid()
      modifies this`pos
      ensures Valid() && pos >= old(pos) && Agrees(r, Rest(), ParseString(old(Rest())))
    {
      hide StringBody, BodyTo, Unescape;
      var _ :- ExpectChar('"');
      var body := "";
      ghost var start := pos;
      BodyStart(s, start);
      while pos < |s| && PeekChar() != '"'
        invariant Valid() && pos >= old(pos) && start <= |s|
        invariant BodyTo(s, start, body, pos)
        decreases |s| - pos
      {
        BodyStep(s, start, body, pos);
        var c := Consume();
        if c == '\\' {
          c := ReadEscape();
        }
        body := body + [c];
      }
      BodyEnd(s, start, body, pos);
      var _ :- ExpectChar('"');
      return Success(body);
    }

    method SkipDigits()
      requires Valid()
      modifies this`pos
      ensures Valid() && pos == old(pos) + DigitCount(old(Rest()))
    {
      ghost var t := Rest();
      while pos < |s| && IsDigit(s[pos])
        invariant Valid() && pos >= old(pos)
        invariant pos + DigitCount(Rest()) == old(pos) + DigitCount(t)
      {
        assert Rest()[1..] == s[pos + 1..];
        pos := pos + 1;
      }
    }

    method SkipInteger()
      requires Valid()
      modifies this`pos
      ensures Valid() && pos == old(pos) + IntegerLength(old(Rest()))
    {
      ghost var t := Rest();
      if PeekChar() == '-' {
        pos := pos + 1;
      }
      assert Rest() == t[pos - old(pos)..];
      SkipDigits();
    }

    method SkipFraction() returns (flt: bool)
      requires Valid()
      modifies this`pos
      ensures Valid() && pos == old(pos) + FractionLength(old(Rest())) && flt == (pos > old(pos))
    {
      ghost var t := Rest();
      flt := PeekChar() == '.';
      if flt {
        pos := pos + 1;
        assert Rest() == t[1..];
        SkipDigits();
      }
    }

    method SkipExponent() returns (flt: bool)
      requires Valid()
      modifies this`pos
      ensures Valid() && pos == old(pos) + ExponentLength(old(Rest())) && flt == (pos > old(pos))
    {
      ghost var t := Rest();
      flt := PeekChar() == 'e' || PeekChar() == 'E';
      if flt {
        pos := pos + 1;
        assert Rest() == t[1..];
        if PeekChar() == '+' || PeekChar() == '-' {
          pos := pos + 1;
          assert Rest() == t[2..];
        }
        SkipDigits();
      }
    }

    method ReadNumber() returns (r: Result<JsonNode>)
      requires Valid() && (PeekChar() == '-' || IsDigit(PeekChar()))
      modifies this`pos
      ensures Valid() && pos >= old(pos) && Agrees(r, Rest(), ParseNumber(old(Rest())))
    {
      hide IntegerLength, FractionLength, ExponentLength, Atoll, IsDigit, ParseNumber;
      var start := pos;
      SkipInteger();
      ghost var n := pos - start;
      var fraction := SkipFraction();
      ghost var f := pos - start - n;
      var exponent := SkipExponent();
      ghost var e := pos - start - n - f;
      NumberParts(s, start, n, f, e);
      var num := s[start..pos];
      if fraction || exponent {
        return Success(Double(num));
      } else {
        return Success(Int(Atoll(num)));
      }
    }

    method ReadBool() returns (r: Result<JsonNode>)
      requires Valid()
      modifies this`pos
      ensures Valid() && pos >= old(pos) && Agrees(r, Rest(), ParseBool(old(Rest())))
    {
      if |s| - pos >= 4 && s[pos..pos + 4] == "true" {
        assert Rest()[..4] == s[pos..pos + 4];
        pos := pos + 4;
        return Success(Bool(true));
      } else if |s| - pos >= 5 && s[pos..pos + 5] == "false" {
        assert Rest()[..5] == s[pos..pos + 5];
        pos := pos + 5;
        return Success(Bool(false));
      } else {
        assert |Rest()| >= 4 ==> Rest()[..4] == s[pos..pos + 4];
        assert |Rest()| >= 5 ==> Rest()[..5] == s[pos..pos + 5];
        return Failure("expected bool");
      }
    }

    method ReadNull() returns (r: Result<JsonNode>)
      requires Valid()
      modifies this`pos
      ensures Valid() && pos >= old(pos) && Agrees(r, Rest(), ParseNull(old(Rest())))
    {
      if |s| - pos >= 4 && s[pos..pos + 4] == "null" {
        assert Rest()[..4] == s[pos..pos + 4];
        pos := pos + 4;
        return Success(Null);
      } else {
        assert |Rest()| >= 4 ==> Rest()[..4] == s[pos..pos + 4];
        return Failure("expected null");
      }
    }

    method ReadValue() returns (r: Result<JsonNode>)
      requires Valid()
      modifies this`pos
      ensures Valid() && pos >= old(pos) && Agrees(r, Rest(), ParseValue(old(Rest())))
      decreases |s| - pos, 3
    {
      hide ParseString, ParseObject, ParseArray, ParseNumber, ParseBool, ParseNull;
      SkipWhite();
      var c := PeekChar();
      if c == '"' {
        var str :- ReadString();
        return Success(String(str));
      } else if c == '{' {
        r := ReadObject();
      } else if c == '[' {
        r := ReadArray();
      } else if c == 't' || c == 'f' {
        r := ReadBool();
      } else if c == 'n' {
        r := ReadNull();
      } else if c == '-' || IsDigit(c) {
        r := ReadNumber();
      } else {
        return Failure("unexpected char");
      }
    }

    method ReadMember() returns (r: Result<(string, JsonNode)>)
      requires Valid()
      modifies this`pos
      ensures Valid() && pos >= old(pos) && Agrees(r, Rest(), ParseMember(old(Rest())))
      decreases |s| - pos, 4
    {
      hide ParseString, ParseValue, Expect;
      SkipWhite();
      if PeekChar() != '"' {
        return Failure("expected key");
      }
      var k :- ReadString();
      var _ :- ExpectChar(':');
      var v :- ReadValue();
      return Success((k, v));
    }

    method ReadObject() returns (r: Result<JsonNode>)
      requires Valid()
      modifies this`pos
      ensures Valid() && pos >= old(pos) && Agrees(r, Rest(), ParseObject(old(Rest())))
      decreases |s| - pos, 2
    {
      hide ParseObject, ParseMembers, ParseMember, Expect, SkipWs, Rest, PeekChar, Peek;
      ObjectUnfold(Rest());
      var _ :- ExpectChar('{');
      var obj: map<string, JsonNode> := map[];
      SkipWhite();
      if PeekChar() == '}' {
        Advance();
        return Success(Object(obj));
      }
      ghost var spec := ParseMembers(Rest(), obj);
      while pos < |s|
        invariant Valid() && pos > old(pos)
        invariant spec == ParseMembers(Rest(), obj)
        decreases |s| - pos
      {
        AtEnd();
        MembersUnfold(Rest(), obj);
        var kv :- ReadMember();
        obj := obj[kv.0 := kv.1];
        SkipWhite();
        if PeekChar() == ',' {
          Advance();
          continue;
        }
        if PeekChar() == '}' {
          Advance();
          return Success(Object(obj));
        }
        return Failure("expected , or }");
      }
      AtEnd();
      MembersEnd(obj);
      return Success(Object(obj));
    }

    method ReadArray() returns (r: Result<JsonNode>)
      requires Valid()
      modifies this`pos
      ensures Valid() && pos >= old(pos) && Agrees(r, Rest(), ParseArray(old(Rest())))
      decreases |s| - pos, 2
    {
      hide ParseArray, ParseElements, ParseValue, Expect, SkipWs, Rest, PeekChar, Peek;
      ArrayUnfold(Rest());
      var _ :- ExpectChar('[');
      var arr: seq<JsonNode> := [];
      SkipWhite();
      if PeekChar() == ']' {
        Advance();
        return Success(Array(arr));
      }
      ghost var spec := ParseElements(Rest(), arr);
      while pos < |s|
        invariant Valid() && pos > old(pos)
        invariant spec == ParseElements(Rest(), arr)
        decreases |s| - pos
      {
        AtEnd();
        ElementsUnfold(Rest(), arr);
        var v :- ReadValue();
        arr := arr + [v];
        SkipWhite();
        if PeekChar() == ',' {
          Advance();
          continue;
        }
        if PeekChar() == ']' {
          Advance();
          return Success(Array(arr));
        }
        return Failure("expected , or ]");
      }
      AtEnd();
      ElementsEnd(arr);
      return Success(Array(arr));
    }

    method ParseAll() returns (r: Result<JsonNode>)
      requires pos == 0
      modifies this`pos
      ensures Valid() && Agrees(r, Rest(), ParseValue(SkipWs(s)))
    {
      assert s[0..] == s;
      SkipWhite();
      r := ReadValue();
    }
  }

  /** json::parse: an exception becomes the null node and its message. */
  method ParseText(input: string) returns (node: JsonNode, err: string)
    ensures (node, err) == Parse(input)
  {
    var p := new Parser(input);
    var r := p.ParseAll();
    match r {
      case Success(v) => return v, "";
      case Failure(m) => return Null, m;
    }
  }

  lemma NumberParts(s: string, start: nat, n: nat, f: nat, e: nat)
    requires start + n + f <= |s| && (Peek(s[start..]) == '-' || IsDigit(Peek(s[start..])))
    requires n == IntegerLength(s[start..]) && f == FractionLength(s[start + n..])
    requires e == ExponentLength(s[start + n + f..])
    ensures start + n + f + e <= |s|
    ensures var num, rest := s[start..start + n + f + e], s[start + n + f + e..];
            ParseNumber(s[start..]) == Ok(if f > 0 || e > 0 then Double(num) else Int(Atoll(num)), rest)
  {
    hide IntegerLength, FractionLength, ExponentLength, Atoll;
    var t := s[start..];
    assert t[n..] == s[start + n..];
    assert t[n + f..] == s[start + n + f..];
    var len := n + f + e;
    assert t[..len] == s[start..start + len];
    assert t[len..] == s[start + len..];
  }

  lemma ObjectUnfold(t: string)
    ensures var p := Expect(t, '{');
            ParseObject(t) ==
            if p.Err? then Err(p.msg)
            else
              var w := SkipWs(p.rest);
              if Peek(w) == '}' then Ok(Object(map[]), w[1..]) else ParseMembers(w, map[])
  {
    hide Expect, SkipWs, ParseMembers;
  }

  lemma ArrayUnfold(t: string)
    ensures var p := Expect(t, '[');
            ParseArray(t) ==
            if p.Err? then Err(p.msg)
            else
              var w := SkipWs(p.rest);
              if Peek(w) == ']' then Ok(Array([]), w[1..]) else ParseElements(w, [])
  {
    hide Expect, SkipWs, ParseElements;
  }

  lemma MembersUnfold(t: string, acc: map<string, JsonNode>)
    requires t != ""
    ensures var p := ParseMember(t);
            ParseMembers(t, acc) ==
            if p.Err? then Err(p.msg)
            else
              var z, acc' := SkipWs(p.rest), acc[p.v.0 := p.v.1];
              if Peek(z) == ',' then ParseMembers(z[1..], acc')
              else if Peek(z) == '}' then Ok(Object(acc'), z[1..])
              else Err("expected , or }")
  {
    hide ParseMember, SkipWs;
  }

  lemma MembersEnd(acc: map<string, JsonNode>)
    ensures ParseMembers("", acc) == Ok(Object(acc), "")
  {
  }

  lemma ElementsUnfold(t: string, acc: seq<JsonNode>)
    requires t != ""
    ensures var p := ParseValue(t);
            ParseElements(t, acc) ==
            if p.Err? then Err(p.msg)
            else
              var z, acc' := SkipWs(p.rest), acc + [p.v];
              if Peek(z) == ',' then ParseElements(z[1..], acc')
              else if Peek(z) == ']' then Ok(Array(acc'), z[1..])
              else Err("expected , or ]")
  {
    hide ParseValue, SkipWs;
  }

  lemma ElementsEnd(acc: seq<JsonNode>)
    ensures ParseElements("", acc) == Ok(Array(acc), "")
  {
  }

  /** The string loop that began at `start` has decoded `body` and stands at `at`. */
  ghost predicate BodyTo(s: string, start: nat, body: string, at: nat)
    requires start <= |s| && at <= |s|
  {
    StringBody(s[start..]) == (body + StringBody(s[at..]).0, StringBody(s[at..]).1)
  }

  lemma BodyStart(s: string, start: nat)
    requires start <= |s|
    ensures BodyTo(s, start, "", start)
  {
    hide StringBody;
    var r := StringBody(s[start..]).0;
    assert "" + r == r;
  }

  lemma BodyStep(s: string, start: nat, body: string, at: nat)
    requires start <= |s| && at < |s| && BodyTo(s, start, body, at) && s[at] != '"'
    ensures if s[at] != '\\' then BodyTo(s, start, body + [s[at]], at + 1)
            else if at + 1 == |s| then BodyTo(s, start, body + "\0", at + 1)
            else if s[at + 1] == 'u' then BodyTo(s, start, body + "?", at + 2 + Min(4, |s| - at - 2))
            else BodyTo(s, start, body + [Unescape(s[at + 1])], at + 2)
  {
    var u := s[at..];
    if s[at] != '\\' {
      assert u[1..] == s[at + 1..];
      BodyPush(body, s[at], StringBody(s[at + 1..]).0);
    } else if at + 1 == |s| {
      assert StringBody("") == ("", "");
      assert s[at + 1..] == "";
      assert body + "\0" + "" == body + "\0";
    } else if s[at + 1] == 'u' {
      var n := 2 + Min(4, |s| - at - 2);
      assert u[n..] == s[at + n..];
      BodyPush(body, '?', StringBody(s[at + n..]).0);
    } else {
      assert u[2..] == s[at + 2..];
      BodyPush(body, Unescape(s[at + 1]), StringBody(s[at + 2..]).0);
    }
  }

  lemma BodyPush(body: string, c: char, more: string)
    ensures body + [c] + more == body + ([c] + more)
  {
  }

  lemma BodyEnd(s: string, start: nat, body: string, at: nat)
    requires start <= |s| && at <= |s| && BodyTo(s, start, body, at) && (at == |s| || s[at] == '"')
    ensures StringBody(s[start..]) == (body, s[at..])
  {
    assert body + "" == body;
  }
}
