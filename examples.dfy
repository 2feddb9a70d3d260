/** The package's example functions and table tests, written as client methods
    whose postconditions are the outputs the tests expect. */
module ErrCodeExamples {
  import opened Wrappers
  import opened Fmt
  import opened ErrCode

  /** Registering one code twice: the first call succeeds, the second panics. */
  method TestNewError(code: int) returns (first: Result<Error, Panic>, second: Result<Error, Panic>)
    ensures first == Success(Error(code, 500, "Internal Server Error", []))
    ensures second == Failure(DuplicateCode(code))
  {
    var reg := new Registry();
    first := reg.NewError(code, 500, "Internal Server Error", []);
    second := reg.NewError(code, 400, "Bad Request", []);
  }

  /** Two distinct fresh codes both register, in either order, and both stay registered. */
  method RegisterDistinct(reg: Registry, c1: int, c2: int)
    returns (r1: Result<Error, Panic>, r2: Result<Error, Panic>)
    requires reg.Valid() && c1 != c2 && c1 !in reg.codes && c2 !in reg.codes
    modifies reg
    ensures reg.Valid() && r1.Success? && r2.Success?
    ensures reg.codes == old(reg.codes) + {c1, c2}
  {
    r1 := reg.NewError(c1, 400, "first", []);
    r2 := reg.NewError(c2, 400, "second", []);
  }

  /** A definition built with NewError, printed through Error(). */
  method ExampleNewError() returns (text: string)
    ensures text == "1 - Internal Server Error"
  {
    var reg := new Registry();
    var r := reg.NewError(1, 500, "Internal Server Error", []);
    assert Decimal(1) == "1";
    SpelledNewError();
    text := r.value.Error();
  }

  method ExampleHTTPStatusCode() returns (status: int)
    ensures status == 404
  {
    var reg := new Registry();
    var r := reg.NewError(2, 404, "Not Found", []);
    status := r.value.HTTPStatusCode();
  }

  /** Operands given at definition time fill the template. */
  method ExampleMessage() returns (message: string)
    ensures message == "Invalid username"
  {
    var reg := new Registry();
    var r := reg.NewError(3, 400, "Invalid %v", [StrArg("username")]);
    InvalidUsername(r.value);
    message := r.value.Message();
  }

  /** The table of TestUnwrap and TestHardUnwrap: a plain error, a coded error,
      and each wrapped twice. Unwrap's result must satisfy errors.Is with the
      expected error; HardUnwrap must report false for the plain cases and the
      coded error for the others. */
  method TestUnwrap(code: int) returns (got: seq<Err>, hard: seq<Option<Error>>, found: seq<bool>)
    ensures var err, ec := Plain("error"), Error(code, 500, "Error", []);
      got == [err, Coded(ec), WrapAll(["wrap: ", "wrap: "], err), Coded(ec)] &&
      Is(got[2], err) &&
      hard == [None, Some(ec), None, Some(ec)] &&
      found == [false, true, false, true]
  {
    var reg := new Registry();
    var r := reg.NewError(code, 500, "Error", []);
    var err := Plain("error");
    var ec := Coded(r.value);
    var cases := [err, ec, WrapAll(["wrap: ", "wrap: "], err), WrapAll(["wrap: ", "wrap: "], ec)];
    WrappingPreservesSearch(["wrap: ", "wrap: "], err);
    WrappingPreservesSearch(["wrap: ", "wrap: "], ec);
    got, hard, found := [], [], [];
    for i := 0 to 4
      invariant |got| == |hard| == |found| == i
      invariant forall k :: 0 <= k < i ==> got[k] == if FirstCoded(cases[k]).Some? then ec else cases[k]
      invariant forall k :: 0 <= k < i ==> hard[k] == FirstCoded(cases[k]) && found[k] == hard[k].Some?
    {
      var u := Unwrap(cases[i]);
      var h, ok := HardUnwrap(cases[i]);
      got, hard, found := got + [u], hard + [h], found + [ok];
    }
    assert Chain(cases[2]) == [cases[2], Wrapped("wrap: ", err), err];
  }

  /** A definition given its operand late, wrapped by two layers, then recovered. */
  method ExampleUnwrap() returns (wrapped: string, unwrapped: string)
    ensures wrapped == "service: repo: 4 - Invalid username"
    ensures unwrapped == "4 - Invalid username"
  {
    var reg := new Registry();
    var r := reg.NewError(4, 400, "Invalid %v", []);
    var ec := r.value.WithArgs([StrArg("username")]);
    var err := WrapAll(["service: ", "repo: "], Coded(ec));
    var u := Unwrap(err);
    WrappingPreservesSearch(["service: ", "repo: "], Coded(ec));
    InvalidUsername(ec);
    assert Decimal(4) == "4";
    WrappedText(["service: ", "repo: "], Coded(ec));
    SpelledUnwrap();
    wrapped := Describe(err);
    unwrapped := Describe(u);
  }

  /** The same with HardUnwrap, reading every accessor of the recovered error. */
  method ExampleHardUnwrap()
    returns (wrapped: string, text: string, ok: bool, code: int, status: int, message: string)
    ensures wrapped == "service: repo: 5 - Invalid username"
    ensures text == "5 - Invalid username" && ok
    ensures code == 5 && status == 400 && message == "Invalid username"
  {
    var reg := new Registry();
    var r := reg.NewError(5, 400, "Invalid %v", []);
    var ec := r.value.WithArgs([StrArg("username")]);
    var err := WrapAll(["service: ", "repo: "], Coded(ec));
    var u;
    u, ok := HardUnwrap(err);
    WrappingPreservesSearch(["service: ", "repo: "], Coded(ec));
    InvalidUsername(ec);
    assert Decimal(5) == "5";
    WrappedText(["service: ", "repo: "], Coded(ec));
    SpelledHardUnwrap();
    wrapped := Describe(err);
    text := u.value.Error();
    code := u.value.Code();
    status := u.value.HTTPStatusCode();
    message := u.value.Message();
  }

  /** The template "Invalid %v" with the operand "username". */
  lemma InvalidUsername(e: Error)
    requires e.message == "Invalid %v" && e.args == [StrArg("username")]
    ensures e.Message() == "Invalid username"
  {
    assert "Invalid %v" == "Invalid " + "%v" + "";
    SprintfOneVerb("Invalid ", "", StrArg("username"));
    assert "Invalid " + "username" + "" == "Invalid username";
  }

  // The expected outputs spelled out as literals, kept apart from the methods
  // above so that each literal is unfolded in a small proof context.

  lemma SpelledNewError()
    ensures "1" + " - " + "Internal Server Error" == "1 - Internal Server Error"
  {
  }

  lemma SpelledUnwrap()
    ensures "4" + " - " + "Invalid username" == "4 - Invalid username"
    ensures Concat(["service: ", "repo: "]) + "4 - Invalid username" == "service: repo: 4 - Invalid username"
  {
  }

  lemma SpelledHardUnwrap()
    ensures "5" + " - " + "Invalid username" == "5 - Invalid username"
    ensures Concat(["service: ", "repo: "]) + "5 - Invalid username" == "service: repo: 5 - Invalid username"
  {
  }
}
