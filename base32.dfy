/** Base32 with the standard alphabet and no padding (section 6 of RFC 4648),
    the encoding the plaintext of a token is written in. */
module Base32 {
  import opened Common

  /** "ABCDEFGHIJKLMNOPQRSTUVWXYZ234567": the 32 symbols, by value. */
  const Alphabet: Bytes := Ascii("ABCDEFGHIJKLMNOPQRSTUVWXYZ234567")

  /** A 5-byte group read as one 40-bit big-endian number. */
  function GroupValue(g: seq<byte>): (v: nat)
    requires |g| == 5
    ensures v < 1099511627776
  {
    (((g[0] as nat * 256 + g[1] as nat) * 256 + g[2] as nat) * 256 + g[3] as nat) * 256 + g[4] as nat
  }

  /** 32 to the power 7 - i: the weight of the i-th 5-bit symbol of a group. */
  const Weights: seq<nat> := [34359738368, 1073741824, 33554432, 1048576, 32768, 1024, 32, 1]

  /** The first n symbols of the 8 that encode a 5-byte group. */
  function EncodeGroup(g: seq<byte>, n: nat): (r: Bytes)
    requires |g| == 5 && n <= 8
    ensures |r| == n
    ensures forall i | 0 <= i < n :: r[i] in Alphabet
  {
    seq(n, i requires 0 <= i < n => Alphabet[(GroupValue(g) / Weights[i]) % 32])
  }

  /** Unpadded encoding: full groups give 8 symbols, a final group of k < 5
      bytes (padded with zero bits) gives the (8k + 4) / 5 symbols that carry
      data, and no '=' follows. */
  function Encode(data: seq<byte>): (r: Bytes)
    ensures |r| == (8 * |data| + 4) / 5
    ensures forall i | 0 <= i < |r| :: r[i] in Alphabet
  {
    if |data| == 0 then []
    else if |data| >= 5 then EncodeGroup(data[..5], 8) + Encode(data[5..])
    else EncodeGroup(data + seq(5 - |data|, _ => 0 as byte), (8 * |data| + 4) / 5)
  }

  /** The value of one symbol of the alphabet: A-Z are 0-25, 2-7 are 26-31. */
  function SymbolValue(c: byte): (v: nat)
    requires c in Alphabet
    ensures v < 32 && Alphabet[v] == c
  {
    if c >= 65 then (c - 65) as nat else (c - 24) as nat
  }

  /** Each symbol of the alphabet reads back as its own position. */
  lemma SymbolValueOfAlphabet(d: nat)
    requires d < 32
    ensures SymbolValue(Alphabet[d]) == d
  {
  }

  predicate AllSymbols(s: Bytes)
  {
    forall i | 0 <= i < |s| :: s[i] in Alphabet
  }

  /** The first n symbols of a group, each at its weight, summed. */
  function SymbolsValue(s: Bytes, n: nat): nat
    requires AllSymbols(s) && n <= |s| && n <= 8
  {
    if n == 0 then 0 else SymbolsValue(s, n - 1) + SymbolValue(s[n - 1]) * Weights[n - 1]
  }

  /** 256 to the power 4 - j: the weight of the j-th byte of a group. */
  const ByteWeights: seq<nat> := [4294967296, 16777216, 65536, 256, 1]

  /** The first k bytes of the group that up to 8 symbols encode. */
  function DecodeGroup(s: Bytes, k: nat): (r: seq<byte>)
    requires AllSymbols(s) && |s| <= 8 && k <= 5
    ensures |r| == k
  {
    seq(k, j requires 0 <= j < k => ((SymbolsValue(s, |s|) / ByteWeights[j]) % 256) as byte)
  }

  /** Unpadded decoding: a symbol outside the alphabet, or a final group of
      1, 3 or 6 symbols (which no byte count encodes to), is an error. */
  function Decode(s: Bytes): (r: Option<seq<byte>>)
    ensures r.Some? ==> |r.value| == 5 * |s| / 8
    ensures r.Some? <==> AllSymbols(s) && |s| % 8 != 1 && |s| % 8 != 3 && |s| % 8 != 6
  {
    if |s| == 0 then Some([])
    else if !AllSymbols(s[..if |s| >= 8 then 8 else |s|]) then None
    else if |s| >= 8 then
      match Decode(s[8..])
      case None => None
      case Some(rest) =>
        assert AllSymbols(s) by {
          forall i | 0 <= i < |s| ensures s[i] in Alphabet {
            if i >= 8 { assert s[i] == s[8..][i - 8]; } else { assert s[i] == s[..8][i]; }
          }
        }
        Some(DecodeGroup(s[..8], 5) + rest)
    else if |s| == 1 || |s| == 3 || |s| == 6 then None
    else Some(DecodeGroup(s, 5 * |s| / 8))
  }

  /** The i-th base-32 digit of a 40-bit value, most significant first. */
  function Digit(v: nat, i: nat): nat
    requires i < 8
  {
    (v / Weights[i]) % 32
  }

  /** The first m digits of v, each at its weight, summed. */
  function DigitsValue(v: nat, m: nat): nat
    requires m <= 8
  {
    if m == 0 then 0 else DigitsValue(v, m - 1) + Digit(v, m - 1) * Weights[m - 1]
  }

  /** Below weight i, digit i + 1 and the rest below weight i + 1 make up the value. */
  lemma ModSplit(v: nat, i: nat)
    requires i < 7
    ensures v % Weights[i] == Digit(v, i + 1) * Weights[i + 1] + v % Weights[i + 1]
  {
  }

  /** The first m digits of a 40-bit value are worth the value rounded down
      to a multiple of the m-th weight. */
  lemma {:induction false} DigitsValuePrefix(v: nat, m: nat)
    requires v < 1099511627776 && 1 <= m <= 8
    ensures DigitsValue(v, m) == v - v % Weights[m - 1]
  {
    if m > 1 {
      DigitsValuePrefix(v, m - 1);
      ModSplit(v, m - 2);
    }
  }

  /** The symbols of an encoded group read back as the group's digits. */
  lemma {:induction false} EncodedSymbolsValue(g: seq<byte>, n: nat, m: nat)
    requires |g| == 5 && m <= n <= 8
    ensures SymbolsValue(EncodeGroup(g, n), m) == DigitsValue(GroupValue(g), m)
  {
    if m > 0 {
      var e, v := EncodeGroup(g, n), GroupValue(g);
      EncodedSymbolsValue(g, n, m - 1);
      assert e[m - 1] == Alphabet[Digit(v, m - 1)];
      SymbolValueOfAlphabet(Digit(v, m - 1));
      assert SymbolsValue(e, m) == SymbolsValue(e, m - 1) + Digit(v, m - 1) * Weights[m - 1];
    }
  }

  /** Euclidean division is determined by any quotient and remainder in range. */
  lemma DivModUnique(a: nat, q: nat, r: nat, m: nat)
    requires 0 < m && r < m && a == q * m + r
    ensures a / m == q && a % m == r
  {
    var d := a / m - q;
    assert d * m == r - a % m;
    MulSign(d, m);
  }

  /** A non-zero multiple of a positive m is at least m away from zero. */
  lemma MulSign(d: int, m: int)
    requires 0 < m
    ensures d > 0 ==> d * m >= m
    ensures d < 0 ==> d * m <= -m
  {
  }

  /** Byte j of a group sits at weight 256 to the power 4 - j of its value. */
  lemma GroupByte(g: seq<byte>, j: nat)
    requires |g| == 5 && j < 5
    ensures (GroupValue(g) / ByteWeights[j]) % 256 == g[j] as int
  {
    var v := GroupValue(g);
    var b0, b1, b2, b3, b4 := g[0] as nat, g[1] as nat, g[2] as nat, g[3] as nat, g[4] as nat;
    var hi: nat, lo: nat;
    if j == 0 {
      hi, lo := 0, ((b1 * 256 + b2) * 256 + b3) * 256 + b4;
    } else if j == 1 {
      hi, lo := b0, (b2 * 256 + b3) * 256 + b4;
    } else if j == 2 {
      hi, lo := b0 * 256 + b1, b3 * 256 + b4;
    } else if j == 3 {
      hi, lo := (b0 * 256 + b1) * 256 + b2, b4;
    } else {
      hi, lo := ((b0 * 256 + b1) * 256 + b2) * 256 + b3, 0;
    }
    DivModUnique(v, hi * 256 + g[j] as nat, lo, ByteWeights[j]);
    DivModUnique(hi * 256 + g[j] as nat, hi, g[j] as nat, 256);
  }

  /** When only the first k bytes may be non-zero, the digits the
      (8k + 4) / 5 symbols leave out are all zero. */
  lemma LowDigitsZero(g: seq<byte>, k: nat)
    requires |g| == 5 && 1 <= k <= 5
    requires forall j | k <= j < 5 :: g[j] == 0
    ensures GroupValue(g) % Weights[(8 * k + 4) / 5 - 1] == 0
  {
    var v := GroupValue(g);
    var b0, b1, b2, b3 := g[0] as nat, g[1] as nat, g[2] as nat, g[3] as nat;
    var q: nat;
    if k == 1 {
      q := b0 * 4;
    } else if k == 2 {
      q := b0 * 4096 + b1 * 16;
    } else if k == 3 {
      q := b0 * 131072 + b1 * 512 + b2 * 2;
    } else if k == 4 {
      q := b0 * 134217728 + b1 * 524288 + b2 * 2048 + b3 * 8;
    } else {
      q := v;
    }
    DivModUnique(v, q, 0, Weights[(8 * k + 4) / 5 - 1]);
  }

  /** Decoding the symbols a group of k bytes encodes to gives back those k bytes. */
  lemma GroupRoundTrip(g: seq<byte>, k: nat)
    requires |g| == 5 && 1 <= k <= 5
    requires forall j | k <= j < 5 :: g[j] == 0
    ensures 5 * ((8 * k + 4) / 5) / 8 == k
    ensures DecodeGroup(EncodeGroup(g, (8 * k + 4) / 5), k) == g[..k]
  {
    var n := (8 * k + 4) / 5;
    EncodedSymbolsValue(g, n, n);
    DigitsValuePrefix(GroupValue(g), n);
    LowDigitsZero(g, k);
    forall j | 0 <= j < k ensures DecodeGroup(EncodeGroup(g, n), k)[j] == g[j] {
      GroupByte(g, j);
    }
  }

  /** Decoding undoes unpadded encoding. */
  lemma {:induction false} DecodeEncode(data: seq<byte>)
    ensures Decode(Encode(data)) == Some(data)
    decreases |data|
  {
    var s := Encode(data);
    if |data| == 0 {
    } else if |data| >= 5 {
      DecodeEncode(data[5..]);
      GroupRoundTrip(data[..5], 5);
      assert s[..8] == EncodeGroup(data[..5], 8) && s[8..] == Encode(data[5..]);
      assert AllSymbols(s[..8]);
      assert data[..5][..5] == data[..5];
      assert data[..5] + data[5..] == data;
    } else {
      var g := data + seq(5 - |data|, _ => 0 as byte);
      GroupRoundTrip(g, |data|);
      assert g[..|data|] == data;
    }
  }

  /** Distinct byte strings have distinct encodings. */
  lemma EncodeInjective(a: seq<byte>, b: seq<byte>)
    requires Encode(a) == Encode(b)
    ensures a == b
  {
    DecodeEncode(a);
    DecodeEncode(b);
  }

  /** Sixteen bytes encode to exactly 26 symbols of the alphabet: A-Z and 2-7. */
  lemma SixteenBytes(data: seq<byte>)
    requires |data| == 16
    ensures |Encode(data)| == 26
    ensures forall i | 0 <= i < 26 :: 65 <= Encode(data)[i] <= 90 || 50 <= Encode(data)[i] <= 55
  {
    forall i | 0 <= i < 26
      ensures 65 <= Encode(data)[i] <= 90 || 50 <= Encode(data)[i] <= 55
    {
      var j :| 0 <= j < 32 && Alphabet[j] == Encode(data)[i];
    }
  }
}
