/** internal/data/runtime.go: a movie's running time travels in JSON as the
    quoted text "<n> mins". */
module Runtime {
  import opened Common
  import opened Text
  import opened Decimal

  const Quote: byte := 34
  const Backquote: byte := 96
  const Backslash: byte := 92
  const Newline: byte := 10
  const CarriageReturn: byte := 13

  const Mins: Bytes := Ascii("mins")

  /** strconv.Unquote on the literal forms it decodes without escape
      sequences: "..." holding no quote, backslash or newline, and `...`
      holding no backquote (carriage returns dropped). None is its ErrSyntax. */
  function Unquote(s: Bytes): (r: Option<Bytes>)
    ensures r.Some? ==> 2 <= |s|
  {
    if 2 <= |s| && s[0] == Quote && s[|s| - 1] == Quote then
      var inner := s[1..|s| - 1];
      if Quote !in inner && Backslash !in inner && Newline !in inner then Some(inner) else None
    else if 2 <= |s| && s[0] == Backquote && s[|s| - 1] == Backquote then
      var inner := s[1..|s| - 1];
      if Backquote !in inner then Some(WithoutCarriageReturns(inner)) else None
    else None
  }

  function WithoutCarriageReturns(s: Bytes): (r: Bytes)
    ensures CarriageReturn !in r
  {
    if s == [] then []
    else (if s[0] == CarriageReturn then [] else [s[0]]) + WithoutCarriageReturns(s[1..])
  }

  /** The text of Runtime.MarshalJSON: fmt "%d mins" passed through strconv.Quote. */
  function MarshalJSON(runtime: Int32): (json: Bytes)
    ensures Unquote(json) == Some(FormatInt(runtime) + [Space] + Mins)
    ensures |json| >= 2 && json[0] == Quote && json[|json| - 1] == Quote
  {
    var text := FormatInt(runtime) + [Space] + Mins;
    PlainText(runtime);
    var json := [Quote] + text + [Quote];
    assert json[1..|json| - 1] == text;
    json
  }

  /** The text "<n> mins" holds nothing strconv.Quote would escape. */
  lemma PlainText(runtime: Int32)
    ensures var text := FormatInt(runtime) + [Space] + Mins;
            Quote !in text && Backslash !in text && Newline !in text
  {
    FormatIntBytes(runtime);
    var digits := FormatInt(runtime);
    assert forall b | b in digits :: b == Minus || IsDigit(b);
    assert Mins == [109, 105, 110, 115];
  }

  datatype RuntimeError = UnquoteError | ErrInvalidRuntime

  /** The receiver after Runtime.UnmarshalJSON, and the error it returned. */
  datatype Unmarshalled = Unmarshalled(runtime: Int32, err: Option<RuntimeError>)

  /** Runtime.UnmarshalJSON: the receiver is written only when the text is
      "<int32> mins" in quotes; otherwise it keeps its previous value. */
  function UnmarshalJSON(receiver: Int32, json: Bytes): (r: Unmarshalled)
    ensures r.err.Some? ==> r.runtime == receiver
    ensures r.err == Some(UnquoteError) <==> Unquote(json).None?
  {
    match Unquote(json)
    case None => Unmarshalled(receiver, Some(UnquoteError))
    case Some(text) =>
      var parts := Split(text, Space);
      if |parts| != 2 || parts[1] != Mins then Unmarshalled(receiver, Some(ErrInvalidRuntime))
      else
        match ParseInt(parts[0], MinInt32, MaxInt32)
        case None => Unmarshalled(receiver, Some(ErrInvalidRuntime))
        case Some(n) => Unmarshalled(n, None)
  }

  /** Every int32 survives MarshalJSON followed by UnmarshalJSON, whatever the receiver held. */
  lemma RoundTrip(receiver: Int32, runtime: Int32)
    ensures UnmarshalJSON(receiver, MarshalJSON(runtime)) == Unmarshalled(runtime, None)
  {
    FormatIntBytes(runtime);
    assert Space !in FormatInt(runtime);
    assert Space !in Mins;
    SplitInTwo(FormatInt(runtime), Mins, Space);
    FormatParseRoundTrip(runtime, MinInt32, MaxInt32);
  }

  /** UnmarshalJSON accepts exactly the quoted texts "<a> mins" with a single
      space, whose first part a parses as a base-10 int32, and yields that value. */
  lemma UnmarshalAccepts(receiver: Int32, json: Bytes, n: Int32)
    ensures UnmarshalJSON(receiver, json) == Unmarshalled(n, None) <==>
      exists a: Bytes :: Space !in a && Unquote(json) == Some(a + [Space] + Mins)
        && ParseInt(a, MinInt32, MaxInt32) == Some(n)
  {
    if UnmarshalJSON(receiver, json) == Unmarshalled(n, None) {
      var a := AcceptedShape(receiver, json, n);
    }
    if exists a: Bytes :: Space !in a && Unquote(json) == Some(a + [Space] + Mins)
        && ParseInt(a, MinInt32, MaxInt32) == Some(n) {
      var a: Bytes :| Space !in a && Unquote(json) == Some(a + [Space] + Mins)
        && ParseInt(a, MinInt32, MaxInt32) == Some(n);
      ShapeAccepted(receiver, json, n, a);
    }
  }

  /** An accepted text is "<a> mins" with a parsing to the value. */
  lemma AcceptedShape(receiver: Int32, json: Bytes, n: Int32) returns (a: Bytes)
    requires UnmarshalJSON(receiver, json) == Unmarshalled(n, None)
    ensures Space !in a && Unquote(json) == Some(a + [Space] + Mins)
    ensures ParseInt(a, MinInt32, MaxInt32) == Some(n)
  {
    var text := Unquote(json).value;
    SplitTwoPieces(text, Space);
    a := Split(text, Space)[0];
  }

  /** Every "<a> mins" with a parsing to a value is accepted with that value. */
  lemma ShapeAccepted(receiver: Int32, json: Bytes, n: Int32, a: Bytes)
    requires Space !in a && Unquote(json) == Some(a + [Space] + Mins)
    requires ParseInt(a, MinInt32, MaxInt32) == Some(n)
    ensures UnmarshalJSON(receiver, json) == Unmarshalled(n, None)
  {
    assert Space !in Mins;
    SplitInTwo(a, Mins, Space);
  }

  /** A first part that is not a base-10 int32 is reported as an invalid runtime. */
  lemma NonIntegerIsInvalid(receiver: Int32, json: Bytes, a: Bytes)
    requires Space !in a && Unquote(json) == Some(a + [Space] + Mins)
    requires ParseInt(a, MinInt32, MaxInt32).None?
    ensures UnmarshalJSON(receiver, json) == Unmarshalled(receiver, Some(ErrInvalidRuntime))
  {
    assert Space !in Mins;
    SplitInTwo(a, Mins, Space);
  }

  /** Unless the unquoted text splits on spaces into exactly a first part and
      "mins", the result is an invalid runtime. */
  lemma WrongShapeIsInvalid(receiver: Int32, json: Bytes, text: Bytes)
    requires Unquote(json) == Some(text)
    requires !exists a: Bytes :: Space !in a && text == a + [Space] + Mins
    ensures UnmarshalJSON(receiver, json) == Unmarshalled(receiver, Some(ErrInvalidRuntime))
  {
    var parts := Split(text, Space);
    if |parts| == 2 && parts[1] == Mins {
      SplitTwoPieces(text, Space);
      assert false;
    }
  }
}
