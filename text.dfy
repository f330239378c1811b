/** The byte-string operations of Go's `strings` package that the core relies on:
    Split on a one-byte separator (with Join as its inverse), HasPrefix,
    TrimPrefix, ToLower, and the byte-wise ordering used to sort text columns. */
module Text {
  import opened Common
  import opened Order

  const Space: byte := 32
  const Comma: byte := 44
  const Dash: byte := 45

  /** How often `c` occurs in `s`. */
  function Count(s: Bytes, c: byte): nat
  {
    if s == [] then 0 else (if s[0] == c then 1 else 0) + Count(s[1..], c)
  }

  /** strings.Join(parts, string(sep)). */
  function Join(parts: seq<Bytes>, sep: byte): Bytes
    requires |parts| >= 1
  {
    if |parts| == 1 then parts[0] else parts[0] + [sep] + Join(parts[1..], sep)
  }

  /** strings.Split(s, string(sep)): the pieces between the separators, one more
      piece than there are separators (so "" splits into [""]). */
  function Split(s: Bytes, sep: byte): (parts: seq<Bytes>)
    ensures |parts| == Count(s, sep) + 1
    ensures forall i | 0 <= i < |parts| :: sep !in parts[i]
    ensures Join(parts, sep) == s
  {
    if s == [] then [[]]
    else
      var rest := Split(s[1..], sep);
      if s[0] == sep then
        [[]] + rest
      else
        assert Join(rest, sep) == s[1..];
        assert |rest| > 1 ==> Join(rest, sep) == rest[0] + [sep] + Join(rest[1..], sep);
        assert [s[0]] + s[1..] == s;
        [[s[0]] + rest[0]] + rest[1..]
  }

  lemma {:induction false} SplitWithoutSeparator(a: Bytes, sep: byte)
    requires sep !in a
    ensures Split(a, sep) == [a]
  {
    if a != [] {
      SplitWithoutSeparator(a[1..], sep);
      assert [a[0]] + a[1..] == a;
    }
  }

  lemma {:induction false} SplitAtFirstSeparator(a: Bytes, rest: Bytes, sep: byte)
    requires sep !in a
    ensures Split(a + [sep] + rest, sep) == [a] + Split(rest, sep)
  {
    if a == [] {
      assert [] + [sep] + rest == [sep] + rest;
      assert ([sep] + rest)[1..] == rest;
    } else {
      var s := a + [sep] + rest;
      assert s[0] == a[0];
      assert s[1..] == a[1..] + [sep] + rest;
      SplitAtFirstSeparator(a[1..], rest, sep);
      assert [a[0]] + a[1..] == a;
    }
  }

  /** Split undoes Join whenever no piece contains the separator: the pieces
      are the only separator-free decomposition of the joined text. */
  lemma {:induction false} SplitOfJoin(parts: seq<Bytes>, sep: byte)
    requires |parts| >= 1
    requires forall i | 0 <= i < |parts| :: sep !in parts[i]
    ensures Split(Join(parts, sep), sep) == parts
  {
    if |parts| == 1 {
      SplitWithoutSeparator(parts[0], sep);
    } else {
      SplitOfJoin(parts[1..], sep);
      SplitAtFirstSeparator(parts[0], Join(parts[1..], sep), sep);
      assert [parts[0]] + parts[1..] == parts;
    }
  }

  /** Text with exactly one separator splits into the part before it and the part after it. */
  lemma SplitInTwo(a: Bytes, b: Bytes, sep: byte)
    requires sep !in a && sep !in b
    ensures Split(a + [sep] + b, sep) == [a, b]
  {
    assert Join([a, b], sep) == a + [sep] + b by {
      assert [a, b][1..] == [b];
    }
    SplitOfJoin([a, b], sep);
  }

  /** Text that splits into two pieces is the first piece, one separator, and the second. */
  lemma SplitTwoPieces(s: Bytes, sep: byte)
    requires |Split(s, sep)| == 2
    ensures s == Split(s, sep)[0] + [sep] + Split(s, sep)[1]
    ensures sep !in Split(s, sep)[0] && sep !in Split(s, sep)[1]
  {
    var parts := Split(s, sep);
    assert parts[1..] == [parts[1]];
  }

  predicate HasPrefix(s: Bytes, prefix: Bytes)
  {
    |prefix| <= |s| && s[..|prefix|] == prefix
  }

  /** strings.TrimPrefix: drops one leading copy of `prefix`, if there is one. */
  function TrimPrefix(s: Bytes, prefix: Bytes): (r: Bytes)
    ensures HasPrefix(s, prefix) ==> prefix + r == s
    ensures !HasPrefix(s, prefix) ==> r == s
  {
    if HasPrefix(s, prefix) then
      assert s[..|prefix|] + s[|prefix|..] == s;
      s[|prefix|..]
    else s
  }

  predicate IsUpper(b: byte) { 65 <= b <= 90 }

  /** strings.ToLower restricted to ASCII: A-Z become a-z, every other byte is kept. */
  function ToLower(s: Bytes): (r: Bytes)
    ensures |r| == |s|
    ensures forall i | 0 <= i < |s| :: r[i] == if IsUpper(s[i]) then s[i] + 32 else s[i]
  {
    seq(|s|, i requires 0 <= i < |s| => if IsUpper(s[i]) then s[i] + 32 else s[i])
  }

  /** Text with no upper-case letter is its own lower case. */
  lemma ToLowerOfLower(s: Bytes)
    requires forall i | 0 <= i < |s| :: !IsUpper(s[i])
    ensures ToLower(s) == s
  {
  }

  /** Lowering twice is lowering once. */
  lemma ToLowerIdempotent(s: Bytes)
    ensures ToLower(ToLower(s)) == ToLower(s)
  {
    ToLowerOfLower(ToLower(s));
  }

  function ByteBelow(x: byte, y: byte): bool { x < y }

  /** Byte-wise lexicographic order: the order of text under the "C" collation. */
  predicate BytesLess(a: Bytes, b: Bytes)
  {
    LexLess(a, b, ByteBelow)
  }

  lemma BytesLessStrictTotalOrder()
    ensures StrictTotalOrder(BytesLess)
  {
    assert StrictTotalOrder(ByteBelow);
    forall a: Bytes ensures !BytesLess(a, a) {
      LexIrreflexive(a, ByteBelow);
    }
    forall a: Bytes, b: Bytes, c: Bytes | BytesLess(a, b) && BytesLess(b, c) ensures BytesLess(a, c) {
      LexTransitive(a, b, c, ByteBelow);
    }
    forall a: Bytes, b: Bytes | a != b ensures BytesLess(a, b) || BytesLess(b, a) {
      LexTotal(a, b, ByteBelow);
    }
  }
}
