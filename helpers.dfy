/** cmd/api/helpers.go: the readers of query-string values and of the `id`
    route parameter. */
module Helpers {
  import opened Common
  import opened Text
  import opened Decimal
  import opened Validation

  /** A query string as url.Values.Get sees it: the first value of each key. */
  type Query = map<string, Bytes>

  /** url.Values.Get: the value, or "" for an absent key. */
  function Get(qs: Query, key: string): Bytes
  {
    if key in qs then qs[key] else []
  }

  /** strconv.Atoi: a base-10 integer of the platform's 64-bit int. */
  function Atoi(s: Bytes): (r: Option<int>)
    ensures r.Some? ==> MinInt64 <= r.value <= MaxInt64
    ensures s != [] && AllDigits(s) && DigitsValue(s) <= MaxInt64 ==> r == Some(DigitsValue(s) as int)
  {
    ParseInt(s, MinInt64, MaxInt64)
  }

  /** readString: the default for an absent or empty value, otherwise the
      value in lower case. */
  function ReadString(qs: Query, key: string, defaultValue: Bytes): (r: Bytes)
    ensures Get(qs, key) == [] ==> r == defaultValue
    ensures Get(qs, key) != [] ==> r == ToLower(Get(qs, key))
  {
    var s := Get(qs, key);
    if s == [] then defaultValue else ToLower(s)
  }

  /** readString is idempotent for lower-case defaults (the handlers use ""
      and "id"): storing what it read back under the key and reading again
      gives the same text. */
  lemma ReadStringIdempotent(qs: Query, key: string, defaultValue: Bytes)
    requires forall i | 0 <= i < |defaultValue| :: !IsUpper(defaultValue[i])
    ensures ReadString(qs[key := ReadString(qs, key, defaultValue)], key, defaultValue) == ReadString(qs, key, defaultValue)
  {
    var r := ReadString(qs, key, defaultValue);
    assert Get(qs[key := r], key) == r;
    if Get(qs, key) != [] {
      ToLowerIdempotent(Get(qs, key));
    } else if r != [] {
      ToLowerOfLower(r);
    }
  }

  /** The value readInt returns: the default for an absent, empty or
      malformed value, otherwise an integer in the range of Go's int. */
  function QueryInt(qs: Query, key: string, defaultValue: int): (r: int)
    ensures Get(qs, key) == [] || IntMalformed(qs, key) ==> r == defaultValue
    ensures Get(qs, key) != [] && !IntMalformed(qs, key) ==>
      Atoi(Get(qs, key)) == Some(r) && MinInt64 <= r <= MaxInt64
  {
    var s := Get(qs, key);
    if s == [] then defaultValue
    else match Atoi(s)
      case Some(n) => n
      case None => defaultValue
  }

  /** The value is present but is not an integer. */
  predicate IntMalformed(qs: Query, key: string)
  {
    Get(qs, key) != [] && Atoi(Get(qs, key)).None?
  }

  /** readInt: the default for an absent or empty value; the default and the
      message "must be integer" under the key for a value that is not an
      integer; otherwise the integer, with no message. */
  method ReadInt(qs: Query, key: string, defaultValue: int, v: Validator) returns (n: int)
    modifies v
    ensures n == QueryInt(qs, key, defaultValue)
    ensures v.errors == if IntMalformed(qs, key) then WithError(old(v.errors), key, "must be integer")
                        else old(v.errors)
  {
    var s := Get(qs, key);
    if s == [] {
      return defaultValue;
    }
    var parsed := Atoi(s);
    if parsed.None? {
      v.AddError(key, "must be integer");
      return defaultValue;
    }
    n := parsed.value;
  }

  /** An integer written in decimal is read back as itself, with no message. */
  lemma ReadIntOfFormatted(qs: Query, key: string, defaultValue: int, n: int)
    requires MinInt64 <= n <= MaxInt64 && Get(qs, key) == FormatInt(n)
    ensures QueryInt(qs, key, defaultValue) == n && !IntMalformed(qs, key)
  {
    FormatParseRoundTrip(n, MinInt64, MaxInt64);
  }

  /** An absent value gives the default and never a message. */
  lemma ReadIntAbsent(qs: Query, key: string, defaultValue: int)
    requires key !in qs
    ensures QueryInt(qs, key, defaultValue) == defaultValue && !IntMalformed(qs, key)
  {
  }

  /** readCSV: the default for an absent or empty value, otherwise the
      comma-separated pieces, one more than there are commas, which joined
      with commas give back the value. */
  function ReadCSV(qs: Query, key: string, defaultValue: seq<Bytes>): (r: seq<Bytes>)
    ensures Get(qs, key) == [] ==> r == defaultValue
    ensures Get(qs, key) != [] ==> |r| == Count(Get(qs, key), Comma) + 1 && Join(r, Comma) == Get(qs, key)
  {
    var s := Get(qs, key);
    if s == [] then defaultValue else Split(s, Comma)
  }

  /** The parse rule of readParamID: a base-10 int64, or -1 for anything
      else. The error it returns is always nil. */
  function ReadParamID(param: Bytes): (id: int)
    ensures MinInt64 <= id <= MaxInt64
    ensures ParseInt(param, MinInt64, MaxInt64).None? ==> id == -1
    ensures ParseInt(param, MinInt64, MaxInt64).Some? ==> id == ParseInt(param, MinInt64, MaxInt64).value
  {
    match ParseInt(param, MinInt64, MaxInt64)
    case Some(n) => n
    case None => -1
  }

  /** Every int64 written in decimal is read back as itself. */
  lemma ReadParamIDRoundTrip(n: int)
    requires MinInt64 <= n <= MaxInt64
    ensures ReadParamID(FormatInt(n)) == n
  {
    FormatParseRoundTrip(n, MinInt64, MaxInt64);
  }
}
