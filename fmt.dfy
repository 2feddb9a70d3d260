/** The part of Go's fmt and strconv packages that errcode relies on:
    decimal rendering of integers (`%d`, `%v` on an int, strconv.Itoa) and
    fmt.Sprintf restricted to the verbs `%v`, `%s`, `%d` and `%%`, with Go's
    diagnostics for a missing operand, a trailing `%`, surplus operands and a
    verb that does not suit its operand. */
module Fmt {
  import opened Wrappers

  /** An operand of a formatting call. Go's `any` is restricted to the two
      dynamic types errcode's callers pass: int and string. */
  datatype Arg = IntArg(i: int) | StrArg(s: string)

  predicate IsDigit(c: char) { '0' <= c <= '9' }

  predicate AllDigits(s: string) { forall k :: 0 <= k < |s| ==> IsDigit(s[k]) }

  function DigitChar(d: nat): (c: char)
    requires d < 10
    ensures IsDigit(c)
  {
    ('0' as int + d) as char
  }

  function DigitValue(c: char): (d: nat)
    requires IsDigit(c)
    ensures d < 10 && DigitChar(d) == c
  {
    c as int - '0' as int
  }

  /** The decimal digits of n, most significant first, with no leading zero. */
  function Digits(n: nat): (s: string)
    ensures |s| > 0 && AllDigits(s)
    ensures s[0] == '0' ==> n == 0
    decreases n
  {
    if n < 10 then [DigitChar(n)] else Digits(n / 10) + [DigitChar(n % 10)]
  }

  /** The number a string of decimal digits denotes (the inverse of Digits). */
  function DigitsValue(s: string): nat
    requires AllDigits(s)
    decreases |s|
  {
    if s == [] then 0
    else
      var init := s[..|s| - 1];
      assert forall k :: 0 <= k < |init| ==> init[k] == s[k];
      10 * DigitsValue(init) + DigitValue(s[|s| - 1])
  }

  /** Go's decimal form of an int: a minus sign for negative values, then Digits.
      It can always be read back, and it holds neither a space nor a `%`. */
  function Decimal(i: int): (s: string)
    ensures ParseDecimal(s) == Some(i)
    ensures ' ' !in s && '%' !in s
  {
    var d := Digits(if i < 0 then -i else i);
    DigitsRoundTrip(if i < 0 then -i else i);
    assert ' ' !in d && '%' !in d by {
      forall k | 0 <= k < |d| ensures d[k] != ' ' && d[k] != '%' { assert IsDigit(d[k]); }
    }
    if i < 0 then
      var s := "-" + d;
      assert s == ['-'] + d && s[1..] == d;
      s
    else d
  }

  /** Reads back what Decimal writes; None for anything that is not a decimal integer. */
  function ParseDecimal(s: string): Option<int>
  {
    if |s| > 1 && s[0] == '-' && AllDigits(s[1..]) then Some(0 - DigitsValue(s[1..]))
    else if |s| > 0 && AllDigits(s) then Some(DigitsValue(s))
    else None
  }

  lemma {:induction false} DigitsRoundTrip(n: nat)
    ensures DigitsValue(Digits(n)) == n
    decreases n
  {
    if n >= 10 {
      DigitsRoundTrip(n / 10);
      var s := Digits(n);
      assert s[..|s| - 1] == Digits(n / 10);
      assert s[|s| - 1] == DigitChar(n % 10);
    }
  }

  /** The `%v` rendering of an operand. */
  function Render(a: Arg): string
  {
    match a
    case IntArg(i) => Decimal(i)
    case StrArg(s) => s
  }

  /** The name Go's reflect package gives the operand's dynamic type. */
  function TypeName(a: Arg): string
  {
    match a
    case IntArg(_) => "int"
    case StrArg(_) => "string"
  }

  /** What one verb makes of one operand: `%v` prints any operand, `%d` an int,
      `%s` a string; every other pairing is Go's `%!verb(type=value)`. */
  function FormatVerb(verb: char, a: Arg): string
  {
    if verb == 'v' || (verb == 'd' && a.IntArg?) || (verb == 's' && a.StrArg?) then Render(a)
    else "%!" + [verb] + "(" + TypeName(a) + "=" + Render(a) + ")"
  }

  /** Go's report of a verb that has no operand left. */
  function Missing(verb: char): string
  {
    "%!" + [verb] + "(MISSING)"
  }

  /** Output written so far, and the operands no verb has consumed. */
  datatype Scanned = Scanned(out: string, unused: seq<Arg>)

  function Prepend(p: string, r: Scanned): Scanned
  {
    Scanned(p + r.out, r.unused)
  }

  /** One left-to-right pass over a template, consuming one operand per verb. */
  function Scan(t: string, args: seq<Arg>): Scanned
    decreases |t|
  {
    if t == [] then Scanned("", args)
    else if t[0] != '%' then Prepend([t[0]], Scan(t[1..], args))
    else if |t| == 1 then Scanned("%!(NOVERB)", args)
    else if t[1] == '%' then Prepend("%", Scan(t[2..], args))
    else if args == [] then Prepend(Missing(t[1]), Scan(t[2..], args))
    else Prepend(FormatVerb(t[1], args[0]), Scan(t[2..], args[1..]))
  }

  /** Go's report of the operands left over, `type=value` joined by ", ". */
  function ExtraList(rest: seq<Arg>): string
    decreases |rest|
  {
    if rest == [] then ""
    else TypeName(rest[0]) + "=" + Render(rest[0]) + (if |rest| == 1 then "" else ", " + ExtraList(rest[1..]))
  }

  function Extra(rest: seq<Arg>): string
  {
    if rest == [] then "" else "%!(EXTRA " + ExtraList(rest) + ")"
  }

  /** fmt.Sprintf(t, args...) for the verbs modelled here: the scanned output
      followed by the report of the operands no verb consumed. */
  function Sprintf(t: string, args: seq<Arg>): string
  {
    var r := Scan(t, args);
    r.out + Extra(r.unused)
  }

  /** A template without verbs copies itself and reports every operand as surplus. */
  lemma SprintfNoVerbs(t: string, args: seq<Arg>)
    ensures '%' !in t ==> Sprintf(t, args) == t + Extra(args)
  {
    if '%' !in t {
      ScanLiteral(t, [], args);
      assert t + [] == t;
    }
  }

  predicate EndsWith(s: string, suffix: string)
  {
    |suffix| <= |s| && s[|s| - |suffix|..] == suffix
  }

  /** The number of operands a template asks for: its verbs other than `%%`. */
  function Verbs(t: string): nat
    decreases |t|
  {
    if t == [] then 0
    else if t[0] != '%' then Verbs(t[1..])
    else if |t| == 1 then 0
    else if t[1] == '%' then Verbs(t[2..])
    else 1 + Verbs(t[2..])
  }

  function Min(a: nat, b: nat): nat { if a <= b then a else b }

  /** A template consumes one operand per verb, in order, and leaves the rest. */
  lemma {:induction false} ScanConsumesOnePerVerb(t: string, args: seq<Arg>)
    ensures Scan(t, args).unused == args[Min(Verbs(t), |args|)..]
    decreases |t|
  {
    if t == [] {
    } else if t[0] != '%' {
      ScanConsumesOnePerVerb(t[1..], args);
    } else if |t| == 1 {
    } else if t[1] == '%' {
      ScanConsumesOnePerVerb(t[2..], args);
    } else if args == [] {
      ScanConsumesOnePerVerb(t[2..], args);
    } else {
      ScanConsumesOnePerVerb(t[2..], args[1..]);
      assert args[1..][Min(Verbs(t[2..]), |args| - 1)..] == args[Min(Verbs(t), |args|)..];
    }
  }

  /** Sprintf reports surplus operands exactly when there are more operands than
      verbs, and its output then ends with the report of exactly the surplus ones. */
  lemma SurplusOperandsReported(t: string, args: seq<Arg>)
    ensures Scan(t, args).unused != [] <==> |args| > Verbs(t)
    ensures |args| > Verbs(t) ==> EndsWith(Sprintf(t, args), Extra(args[Verbs(t)..]))
  {
    ScanConsumesOnePerVerb(t, args);
    var r := Scan(t, args);
    var x := Extra(r.unused);
    assert (r.out + x)[|r.out + x| - |x|..] == x;
  }

  /** Text without a `%` is copied to the output unchanged. */
  lemma {:induction false} ScanLiteral(p: string, rest: string, args: seq<Arg>)
    requires '%' !in p
    ensures Scan(p + rest, args) == Prepend(p, Scan(rest, args))
    decreases |p|
  {
    if p == [] {
      assert p + rest == rest;
    } else {
      var t := p + rest;
      assert t[0] == p[0] && t[1..] == p[1..] + rest;
      assert Scan(t, args) == Prepend([p[0]], Scan(t[1..], args));
      ScanLiteral(p[1..], rest, args);
      var r := Scan(rest, args);
      assert Prepend([p[0]], Prepend(p[1..], r)) == Prepend(p, r) by {
        assert [p[0]] + (p[1..] + r.out) == p + r.out;
      }
    }
  }

  /** A template without verbs and without operands formats to itself. */
  lemma SprintfLiteral(t: string)
    requires '%' !in t
    ensures Scan(t, []) == Scanned(t, []) && Sprintf(t, []) == t
  {
    ScanLiteral(t, [], []);
    assert t + [] == t;
  }

  /** One verb other than `%%` at the head of a template: it consumes the first
      operand, or reports that the operand is missing. */
  lemma ScanVerb(v: char, q: string, args: seq<Arg>)
    requires v != '%'
    ensures Scan(['%', v] + q, args) ==
      if args == [] then Prepend(Missing(v), Scan(q, args))
      else Prepend(FormatVerb(v, args[0]), Scan(q, args[1..]))
  {
    var t := ['%', v] + q;
    assert t[0] == '%' && t[1] == v && t[2..] == q;
  }

  /** One `%v` between two literal parts is replaced by the operand's rendering. */
  lemma SprintfOneVerb(p: string, q: string, a: Arg)
    requires '%' !in p && '%' !in q
    ensures Sprintf(p + "%v" + q, [a]) == p + Render(a) + q
  {
    var t := ['%', 'v'] + q;
    assert p + "%v" + q == p + t;
    ScanLiteral(p, t, [a]);
    ScanVerb('v', q, [a]);
    assert [a][1..] == [];
    SprintfLiteral(q);
    assert Scan(q, []) == Scanned(q, []);
    assert Scan(p + t, [a]) == Scanned(p + (Render(a) + q), []);
  }

  /** With no operand, one `%v` between two literal parts is reported as missing. */
  lemma SprintfMissingOperand(p: string, q: string)
    requires '%' !in p && '%' !in q
    ensures Sprintf(p + "%v" + q, []) == p + Missing('v') + q
  {
    var t := ['%', 'v'] + q;
    assert p + "%v" + q == p + t;
    ScanLiteral(p, t, []);
    ScanVerb('v', q, []);
    SprintfLiteral(q);
    assert Scan(p + t, []) == Scanned(p + (Missing('v') + q), []);
  }
}
