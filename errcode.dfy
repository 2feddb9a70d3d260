/** errcode: structured errors with a process-wide unique numeric code, an HTTP
    status code and a message template, and the search that recovers such an
    error from a chain of wrapping errors. */
module ErrCode {
  import opened Wrappers
  import opened Fmt

  /** errcode.Error: an immutable record. `message` is the template, `args` the
      operands bound into it. The Go value is handled through a pointer; the
      model compares values instead of pointers. */
  datatype Error = Error(code: int, httpStatusCode: int, message: string, args: seq<Arg>)
  {
    function Code(): (c: int)
      ensures c == code
    {
      code
    }

    function HTTPStatusCode(): (status: int)
      ensures status == httpStatusCode
    {
      httpStatusCode
    }

    /** The template verbatim when there are no operands, the template formatted
        with them otherwise; so a template without verbs that is given operands
        comes back with fmt's report of every operand appended. */
    function Message(): (m: string)
      ensures args == [] ==> m == message
      ensures args != [] ==> m == Sprintf(message, args)
      ensures args != [] && '%' !in message ==> m == message + Extra(args)
    {
      SprintfNoVerbs(message, args);
      if |args| > 0 then Sprintf(message, args) else message
    }

    /** A copy with the same code, status and template whose operands are the
        receiver's followed by xs; the receiver itself is a value and stays as it is. */
    function WithArgs(xs: seq<Arg>): (r: Error)
      ensures r.Code() == Code() && r.HTTPStatusCode() == HTTPStatusCode() && r.message == message
      ensures r.args == args + xs
    {
      this.(args := args + xs)
    }

    /** Go's Error() method, fmt.Sprintf("%d - %s", e.Code(), e.Message()): the
        decimal code, " - ", then the message. */
    function Error(): (s: string)
      ensures s == Decimal(code) + " - " + Message()
    {
      var t := "%d - %s";
      var args := [IntArg(code), StrArg(Message())];
      assert t[0] == '%' && t[1] == 'd' && t[2..] == " - " + "%s";
      ScanLiteral(" - ", "%s", args[1..]);
      var v := "%s";
      assert v[0] == '%' && v[1] == 's' && v[2..] == [];
      assert args[1..][1..] == [];
      assert Scan(v, args[1..]) == Scanned(Message(), []);
      assert Scan(t, args) == Scanned(Decimal(code) + (" - " + Message()), []);
      Sprintf(t, args)
    }
  }

  /** The first position of c in s, or |s| when s has none. */
  function IndexOf(s: string, c: char): (i: nat)
    ensures i <= |s| && (i < |s| ==> s[i] == c)
    ensures forall k :: 0 <= k < i ==> s[k] != c
    decreases |s|
  {
    if s == [] then 0 else if s[0] == c then 0 else 1 + IndexOf(s[1..], c)
  }

  /** Splits the text of Error() back into code and message. */
  function ParseErrorText(s: string): Option<(int, string)>
  {
    var i := IndexOf(s, ' ');
    if i + 3 <= |s| && s[i..i + 3] == " - " then
      match ParseDecimal(s[..i])
      case Some(n) => Some((n, s[i + 3..]))
      case None => None
    else None
  }

  /** The text of Error() determines the code and the message it was built from. */
  lemma ErrorTextRoundTrip(e: Error)
    ensures ParseErrorText(e.Error()) == Some((e.code, e.Message()))
  {
    var d := Decimal(e.code);
    var s := e.Error();
    assert s == d + " - " + e.Message();
    assert s[|d|] == ' ';
    var i := IndexOf(s, ' ');
    assert forall k :: 0 <= k < |d| ==> s[k] == d[k] && s[k] != ' ';
    assert i == |d|;
    assert s[i..i + 3] == " - ";
    assert s[..i] == d;
    assert s[i + 3..] == e.Message();
  }

  /** Without operands the template is returned unprocessed, even where it holds a
      verb that fmt.Sprintf would report as missing its operand. */
  lemma MessageKeepsVerbsWithoutArgs(e: Error, p: string, q: string)
    requires e.args == [] && e.message == p + "%v" + q
    requires '%' !in p && '%' !in q
    ensures e.Message() == p + "%v" + q
    ensures Sprintf(e.message, []) == p + "%!v(MISSING)" + q
  {
    SprintfMissingOperand(p, q);
  }

  /** Operands bound by WithArgs accumulate: two calls equal one call with both lists. */
  lemma WithArgsAccumulates(e: Error, xs: seq<Arg>, ys: seq<Arg>)
    ensures e.WithArgs(xs).WithArgs(ys) == e.WithArgs(xs + ys)
    ensures e.WithArgs([]) == e
  {
    assert e.args + xs + ys == e.args + (xs + ys);
    assert e.args + [] == e.args;
  }

  /** Binding operands to a definition without any formats its template with them. */
  lemma WithArgsFormats(e: Error, xs: seq<Arg>)
    requires e.args == [] && xs != []
    ensures e.WithArgs(xs).Message() == Sprintf(e.message, xs)
    ensures e.Message() == e.message
  {
    assert e.WithArgs(xs).args == xs;
  }

  /** The panic of NewError on a code that is already registered. */
  datatype Panic = DuplicateCode(code: int)

  /** The package-level `codes` set. `issued` records, for the proof, every
      Error that NewError has returned. */
  class Registry {
    var codes: set<int>
    ghost var issued: seq<Error>

    /** Every registered code belongs to exactly one issued definition. */
    ghost predicate Valid()
      reads this
    {
      codes == (set k | 0 <= k < |issued| :: issued[k].code) &&
      forall i, j :: 0 <= i < j < |issued| ==> issued[i].code != issued[j].code
    }

    constructor ()
      ensures Valid() && codes == {} && issued == []
    {
      codes := {};
      issued := [];
    }

    /** Registers a fresh code and returns the definition; a duplicate code panics
        and leaves the registry as it was. */
    method NewError(code: int, httpStatusCode: int, message: string, args: seq<Arg>)
      returns (r: Result<Error, Panic>)
      requires Valid()
      modifies this
      ensures Valid() && old(codes) <= codes
      ensures old(code in codes) ==>
        r == Failure(DuplicateCode(code)) && codes == old(codes) && issued == old(issued)
      ensures old(code !in codes) ==>
        r == Success(Error(code, httpStatusCode, message, args)) &&
        codes == old(codes) + {code} && issued == old(issued) + [r.value]
    {
      if code in codes {
        return Failure(DuplicateCode(code));
      }
      var e := Error(code, httpStatusCode, message, args);
      ghost var before := issued;
      codes := codes + {code};
      issued := issued + [e];
      assert forall k :: 0 <= k < |before| ==> issued[k] == before[k];
      assert issued[|before|] == e;
      assert codes == (set k | 0 <= k < |issued| :: issued[k].code) by {
        forall c | c in (set k | 0 <= k < |issued| :: issued[k].code) ensures c in codes {
          var k :| 0 <= k < |issued| && issued[k].code == c;
          if k < |before| { assert before[k].code == c; }
        }
        forall c | c in codes ensures c in (set k | 0 <= k < |issued| :: issued[k].code) {
          if c == code {
            assert issued[|before|].code == c;
          } else {
            var k :| 0 <= k < |before| && before[k].code == c;
            assert issued[k].code == c;
          }
        }
      }
      forall i, j | 0 <= i < j < |issued| ensures issued[i].code != issued[j].code {
        if j == |before| {
          assert before[i].code in old(codes);
        }
      }
      return Success(e);
    }
  }

  /** A Go error value: a plain error with no cause (errors.New), a wrapper that
      writes a context before its cause's text (fmt.Errorf(context + "%w", cause)),
      or an *errcode.Error. */
  datatype Err = Plain(text: string) | Wrapped(context: string, cause: Err) | Coded(ec: Error)

  /** err.Error(): a coded error prints through errcode's Error method, as its
      decimal code, " - " and its message. */
  function Describe(e: Err): (s: string)
    ensures e.Coded? ==> s == Decimal(e.ec.code) + " - " + e.ec.Message()
  {
    match e
    case Plain(t) => t
    case Wrapped(c, x) => c + Describe(x)
    case Coded(ec) => ec.Error()
  }

  /** The errors the loop `u = errors.Unwrap(u)` visits, starting at e. */
  function Chain(e: Err): (c: seq<Err>)
    ensures |c| >= 1 && c[0] == e
  {
    match e
    case Wrapped(_, x) => [e] + Chain(x)
    case _ => [e]
  }

  /** errors.Unwrap: the cause of a wrapper, nil for anything else (an
      *errcode.Error has no Unwrap method). */
  function Cause(e: Err): (r: Option<Err>)
    ensures r.Some? <==> e.Wrapped?
    ensures r.Some? ==> Chain(e) == [e] + Chain(r.value)
  {
    if e.Wrapped? then Some(e.cause) else None
  }

  /** Chain is exactly the walk by errors.Unwrap: each element's cause is the next
      one, and the last element has no cause. */
  lemma {:induction false} ChainFollowsCause(e: Err)
    ensures forall k :: 0 <= k < |Chain(e)| - 1 ==> Cause(Chain(e)[k]) == Some(Chain(e)[k + 1])
    ensures Cause(Chain(e)[|Chain(e)| - 1]) == None
  {
    match e
    case Plain(_) =>
    case Coded(_) =>
    case Wrapped(_, x) =>
      ChainFollowsCause(x);
      var c, cx := Chain(e), Chain(x);
      assert c == [e] + cx;
      forall k | 0 <= k < |c| - 1 ensures Cause(c[k]) == Some(c[k + 1]) {
        if k == 0 {
          assert c[1] == cx[0];
        } else {
          assert c[k] == cx[k - 1] && c[k + 1] == cx[k];
        }
      }
      assert c[|c| - 1] == cx[|cx| - 1];
  }

  /** The coded error the search stops at, if the chain has one: a coded error
      stops it at once, and whatever it finds lies in the chain. */
  function FirstCoded(e: Err): (r: Option<Error>)
    ensures e.Coded? ==> r == Some(e.ec)
    ensures r.Some? ==> Coded(r.value) in Chain(e)
  {
    match e
    case Plain(_) => None
    case Wrapped(_, x) => FirstCoded(x)
    case Coded(ec) => Some(ec)
  }

  /** Position i of chain c holds a coded error and no earlier position does. */
  ghost predicate FirstCodedAt(c: seq<Err>, i: int)
  {
    0 <= i < |c| && c[i].Coded? && forall j :: 0 <= j < i ==> !c[j].Coded?
  }

  /** FirstCoded finds the outermost coded error of the chain. */
  lemma {:induction false} FirstCodedIsOutermost(e: Err)
    requires FirstCoded(e).Some?
    ensures exists i :: FirstCodedAt(Chain(e), i) && Chain(e)[i] == Coded(FirstCoded(e).value)
  {
    match e
    case Coded(ec) =>
      assert FirstCodedAt(Chain(e), 0);
    case Wrapped(_, x) =>
      FirstCodedIsOutermost(x);
      var c, cx := Chain(e), Chain(x);
      assert c == [e] + cx;
      var i :| FirstCodedAt(cx, i) && cx[i] == Coded(FirstCoded(x).value);
      assert c[i + 1] == cx[i];
      forall j | 0 <= j < i + 1 ensures !c[j].Coded? {
        if j == 0 { assert c[j] == e; } else { assert c[j] == cx[j - 1]; }
      }
      assert FirstCodedAt(c, i + 1);
  }

  /** No error of chain c is coded. */
  ghost predicate Uncoded(c: seq<Err>)
  {
    forall i :: 0 <= i < |c| ==> !c[i].Coded?
  }

  lemma UncodedCons(e: Err, c: seq<Err>)
    ensures Uncoded([e] + c) <==> !e.Coded? && Uncoded(c)
  {
    var ec := [e] + c;
    assert ec[0] == e;
    assert forall j :: 0 <= j < |c| ==> ec[j + 1] == c[j];
    if !e.Coded? && Uncoded(c) {
      forall j | 0 <= j < |ec| ensures !ec[j].Coded? {
        if j > 0 { assert ec[j] == c[j - 1]; }
      }
    }
  }

  /** FirstCoded finds nothing exactly when no error of the chain is coded. */
  lemma {:induction false} FirstCodedNoneIffUncoded(e: Err)
    ensures FirstCoded(e).None? <==> Uncoded(Chain(e))
  {
    match e
    case Plain(_) =>
      UncodedCons(e, []);
      assert Chain(e) == [e] + [];
    case Coded(ec) =>
      UncodedCons(e, []);
      assert Chain(e) == [e] + [];
    case Wrapped(_, x) =>
      FirstCodedNoneIffUncoded(x);
      UncodedCons(e, Chain(x));
      assert FirstCoded(e) == FirstCoded(x);
  }

  /** errors.Is(e, target) for targets without an Is method: target occurs in
      e's chain (the model compares values where Go compares pointers). */
  predicate Is(e: Err, target: Err): (b: bool)
    ensures target == e ==> b
  {
    target in Chain(e)
  }

  /** The text of an error ends with the text of every error that errors.Is
      finds in its chain. */
  lemma {:induction false} ChainTextIsSuffix(e: Err, target: Err)
    requires Is(e, target)
    ensures EndsWith(Describe(e), Describe(target))
  {
    if target == e {
      var s := Describe(e);
      assert s[|s| - |s|..] == s;
    } else {
      match e
      case Wrapped(c, x) =>
        assert Chain(e) == [e] + Chain(x);
        assert Is(x, target);
        ChainTextIsSuffix(x, target);
        SuffixOfAppend(c, Describe(x), Describe(target));
    }
  }

  /** A suffix of d is a suffix of c + d. */
  lemma SuffixOfAppend(c: string, d: string, u: string)
    requires EndsWith(d, u)
    ensures EndsWith(c + d, u)
  {
    assert (c + d)[|c + d| - |u|..] == d[|d| - |u|..];
  }

  /** errcode.Unwrap: the first *errcode.Error of the chain, or err itself;
      either way an error that errors.Is finds in err's chain. */
  method Unwrap(err: Err) returns (r: Err)
    ensures r == if FirstCoded(err).Some? then Coded(FirstCoded(err).value) else err
    ensures Is(err, r)
  {
    if FirstCoded(err).Some? { FirstCodedIsOutermost(err); }
    var u: Option<Err> := Some(err);
    while u.Some?
      invariant u.Some? ==> FirstCoded(u.value) == FirstCoded(err)
      invariant u.None? ==> FirstCoded(err).None?
      decreases if u.Some? then |Chain(u.value)| else 0
    {
      if u.value.Coded? {
        return u.value;
      }
      u := Cause(u.value);
    }
    return err;
  }

  /** errcode.HardUnwrap: the first *errcode.Error of the chain and true, or nil and false. */
  method HardUnwrap(err: Err) returns (ec: Option<Error>, ok: bool)
    ensures ec == FirstCoded(err) && ok == ec.Some?
    ensures ok <==> !Uncoded(Chain(err))
    ensures ok ==> Is(err, Coded(ec.value))
  {
    FirstCodedNoneIffUncoded(err);
    if FirstCoded(err).Some? { FirstCodedIsOutermost(err); }
    var u: Option<Err> := Some(err);
    while u.Some?
      invariant u.Some? ==> FirstCoded(u.value) == FirstCoded(err)
      invariant u.None? ==> FirstCoded(err).None?
      decreases if u.Some? then |Chain(u.value)| else 0
    {
      if u.value.Coded? {
        return Some(u.value.ec), true;
      }
      u := Cause(u.value);
    }
    return None, false;
  }

  /** Unwrap and HardUnwrap agree: HardUnwrap reports true exactly when Unwrap
      returns a coded error, and then both give the same one. */
  method UnwrapAgreement(err: Err) returns (u: Err, ec: Option<Error>, ok: bool)
    ensures ok <==> u.Coded?
    ensures ok ==> ec.Some? && u == Coded(ec.value)
    ensures !ok ==> u == err && ec == None
  {
    u := Unwrap(err);
    ec, ok := HardUnwrap(err);
  }

  /** err wrapped once per context, the first context outermost. */
  function WrapAll(contexts: seq<string>, e: Err): Err
    decreases |contexts|
  {
    if contexts == [] then e else Wrapped(contexts[0], WrapAll(contexts[1..], e))
  }

  function Concat(parts: seq<string>): string
    decreases |parts|
  {
    if parts == [] then "" else parts[0] + Concat(parts[1..])
  }

  /** Wrapping any number of times does not change what the search finds: a coded
      error wrapped N >= 0 times is recovered, a plain one still yields nothing. */
  lemma {:induction false} WrappingPreservesSearch(contexts: seq<string>, e: Err)
    ensures FirstCoded(WrapAll(contexts, e)) == FirstCoded(e)
    decreases |contexts|
  {
    if contexts != [] {
      WrappingPreservesSearch(contexts[1..], e);
    }
  }

  /** The text of a wrapped error is the contexts, outermost first, then the cause's text. */
  lemma {:induction false} WrappedText(contexts: seq<string>, e: Err)
    ensures Describe(WrapAll(contexts, e)) == Concat(contexts) + Describe(e)
    decreases |contexts|
  {
    if contexts != [] {
      WrappedText(contexts[1..], e);
      assert contexts[0] + (Concat(contexts[1..]) + Describe(e)) == (contexts[0] + Concat(contexts[1..])) + Describe(e);
    }
  }
}
