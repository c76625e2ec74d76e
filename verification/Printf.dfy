/** The part of printf that the program uses: %s, %d and %u. */
module Printf {
  import opened Decimal

  /** An argument: a C string, or a number no wider than int. */
  datatype Arg = Str(s: string) | Num(i: int)

  /** A C string ends at the first NUL. */
  function CStr(s: string): string {
    if s == "" || s[0] == '\0' then "" else [s[0]] + CStr(s[1..])
  }

  /** What one argument prints as. */
  function Shown(a: Arg): string {
    match a
    case Str(s) => CStr(s)
    case Num(i) => FormatInt(i)
  }

  /** Conversions and arguments fit together. */
  predicate Fits(fmt: string, args: seq<Arg>) {
    if fmt == "" then args == []
    else if fmt[0] != '%' then Fits(fmt[1..], args)
    else
      && |fmt| >= 2 && args != []
      && (if args[0].Str? then fmt[1] == 's' else fmt[1] == 'd' || fmt[1] == 'u')
      && Fits(fmt[2..], args[1..])
  }

  /** The text a format stands for. */
  function Formatted(fmt: string, args: seq<Arg>): string
    requires Fits(fmt, args)
  {
    if fmt == "" then ""
    else if fmt[0] != '%' then [fmt[0]] + Formatted(fmt[1..], args)
    else Shown(args[0]) + Formatted(fmt[2..], args[1..])
  }

  /** Interprets the format from left to right, taking an argument at each conversion. */
  method Fprintf(fmt: string, args: seq<Arg>) returns (text: string)
    requires Fits(fmt, args)
    ensures text == Formatted(fmt, args)
  {
    text := "";
    var i, j := 0, 0;
    while i < |fmt|
      invariant 0 <= i <= |fmt| && 0 <= j <= |args| && Fits(fmt[i..], args[j..])
      invariant text + Formatted(fmt[i..], args[j..]) == Formatted(fmt, args)
    {
      hide Shown;
      assert fmt[i..][1..] == fmt[i + 1..];
      if fmt[i] != '%' {
        ghost var rest := Formatted(fmt[i + 1..], args[j..]);
        assert text + ([fmt[i]] + rest) == (text + [fmt[i]]) + rest;
        text := text + [fmt[i]];
        i := i + 1;
      } else {
        assert fmt[i..][2..] == fmt[i + 2..] && args[j..][1..] == args[j + 1..];
        ghost var rest := Formatted(fmt[i + 2..], args[j + 1..]);
        assert text + (Shown(args[j]) + rest) == (text + Shown(args[j])) + rest;
        text := text + Shown(args[j]);
        i := i + 2;
        j := j + 1;
      }
    }
    assert fmt[i..] == "" && args[j..] == [];
    assert text + "" == text;
  }

  /** Two formats one after the other print one after the other. */
  lemma {:induction false} Together(f: string, a: seq<Arg>, g: string, b: seq<Arg>)
    requires Fits(f, a) && Fits(g, b)
    ensures Fits(f + g, a + b) && Formatted(f + g, a + b) == Formatted(f, a) + Formatted(g, b)
    decreases |f|
  {
    hide Shown;
    if f == "" {
      assert f + g == g && a + b == b;
      assert "" + Formatted(g, b) == Formatted(g, b);
    } else if f[0] != '%' {
      assert (f + g)[1..] == f[1..] + g;
      Together(f[1..], a, g, b);
      assert [f[0]] + (Formatted(f[1..], a) + Formatted(g, b)) == [f[0]] + Formatted(f[1..], a) + Formatted(g, b);
    } else {
      assert (f + g)[2..] == f[2..] + g && (a + b)[1..] == a[1..] + b;
      Together(f[2..], a[1..], g, b);
      var rest := Formatted(f[2..], a[1..]);
      assert Shown(a[0]) + (rest + Formatted(g, b)) == Shown(a[0]) + rest + Formatted(g, b);
    }
  }

  /** Ordinary characters print as themselves. */
  lemma {:induction false} Literally(l: string)
    requires '%' !in l
    ensures Fits(l, []) && Formatted(l, []) == l
  {
    if l != "" {
      assert '%' !in l[1..] && l[0] in l;
      Literally(l[1..]);
    }
  }

  /** A piece of format with one conversion in it. */
  lemma Conversion(l: string, c: char, r: string, a: Arg)
    requires '%' !in l && '%' !in r && (if a.Str? then c == 's' else c == 'd' || c == 'u')
    ensures Fits(l + ['%', c] + r, [a]) && Formatted(l + ['%', c] + r, [a]) == l + Shown(a) + r
  {
    Literally(l);
    Literally(r);
    ConversionOnly(c, a);
    hide Shown, Formatted, Fits;
    Together(l, [], ['%', c], [a]);
    Together(l + ['%', c], [] + [a], r, []);
    assert [] + [a] == [a] && [a] + [] == [a];
  }

  lemma ConversionOnly(c: char, a: Arg)
    requires if a.Str? then c == 's' else c == 'd' || c == 'u'
    ensures Fits(['%', c], [a]) && Formatted(['%', c], [a]) == Shown(a)
  {
    hide Shown;
    assert ['%', c][2..] == "" && [a][1..] == [];
    assert Shown(a) + "" == Shown(a);
  }
}
