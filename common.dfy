/** Values shared by every part of the model: Go's byte strings, an optional
    value, and time measured the way Go's time.Duration measures it. */
module Common {

  /** One byte of a Go string. Go's `len` counts these, not characters. */
  newtype byte = b: int | 0 <= b < 256

  /** A Go `string` or `[]byte`. */
  type Bytes = seq<byte>

  predicate IsAscii(s: string)
  {
    forall i | 0 <= i < |s| :: s[i] as int < 128
  }

  /** The bytes of an ASCII literal, so that constants can be written as text. */
  function Ascii(s: string): (r: Bytes)
    requires IsAscii(s)
    ensures |r| == |s|
    ensures forall i | 0 <= i < |s| :: r[i] as int == s[i] as int
  {
    seq(|s|, i requires 0 <= i < |s| => s[i] as int as byte)
  }

  datatype Option<+T> = None | Some(value: T)

  /** Instants and durations in nanoseconds, the unit of Go's time.Duration. */
  type Time = int

  const Second: int := 1_000_000_000
  const Minute: int := 60 * Second
  const Hour: int := 60 * Minute

  /** The bounds of Go's fixed-width signed integers. */
  const MinInt32: int := -0x8000_0000
  const MaxInt32: int := 0x7fff_ffff
  const MinInt64: int := -0x8000_0000_0000_0000
  const MaxInt64: int := 0x7fff_ffff_ffff_ffff

  /** Go's int32. */
  type Int32 = n: int | MinInt32 <= n <= MaxInt32
}
