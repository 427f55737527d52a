/** Values shared by every part of the generator: Go's integer widths, the
    error surface, the two entropy sources and the generator configuration. */
module Types {

  /** A Go `byte`; passwords and character ranges are byte strings. */
  newtype byte = b: int | 0 <= b < 0x100

  /** A Go `int64`. */
  newtype int64 = x: int | -0x8000_0000_0000_0000 <= x < 0x8000_0000_0000_0000

  const MinInt64: int := -0x8000_0000_0000_0000
  const MaxInt64: int := 0x7fff_ffff_ffff_ffff

  /** Two's-complement wrap-around of Go's int64 addition and subtraction. */
  function Wrap64(x: int): (r: int64)
    ensures MinInt64 <= x <= MaxInt64 ==> r as int == x
    ensures MaxInt64 < x <= 2 * MaxInt64 + 2 ==> r as int == x - 0x1_0000_0000_0000_0000
  {
    ((x - MinInt64) % 0x1_0000_0000_0000_0000 + MinInt64) as int64
  }

  /** The errors the generator can report. */
  datatype Error =
    | InvalidLength                 // ErrInvalidLength
    | LengthMismatch                // ErrLengthMismatch
    | InvalidCharRange              // ErrInvalidCharRange
    | ReadFailed                    // a fault of crypto/rand's Read, passed through
    | RandNumFailed                 // "random number generation failed: %w"
    | LengthFailed(cause: Error)    // "failed to calculate password length: %w"
    | UnsupportedAlgorithm          // "unsupported algorithm"
    | EntropyExhausted              // the finite modelled word stream ran out

  datatype Result<T> = Success(value: T) | Failure(error: Error)

  /** One 8-byte read of the sampler from crypto/rand, already decoded as a
      big-endian unsigned 64-bit word, or the fault that read reported. */
  datatype Draw = Word(bits: bv64) | ReadFault

  /** What crypto/rand's `Int(rand.Reader, max)` hands back for one call. */
  datatype IntDraw = Drawn(value: int) | IntFault

  /** The bounded-integer oracle: asked for `m >= 1`, it either faults or
      answers with a value in `[0, m)`, which is what `rand.Int` promises. */
  type RandInt = f: int -> IntDraw | forall m: int :: m >= 1 && f(m).Drawn? ==> 0 <= f(m).value < m
    witness (m: int) => IntFault

  /** The algorithm selector of the configuration. `Other` stands for any
      value of the selector's integer type that is none of the three names. */
  datatype Algorithm = AlgoCoinFlip | AlgoRandom | AlgoUnsupported | AlgoOther(code: int)

  /** The mode bitmask, as the flags it can have set. */
  datatype Mode = Mode(lowerCase: bool, numeric: bool, special: bool, upperCase: bool, humanReadable: bool)

  /** The literal character set of each class, standard and human-readable. */
  datatype CharSets = CharSets(
    alphaLower: seq<byte>, alphaLowerHuman: seq<byte>,
    numeric: seq<byte>, numericHuman: seq<byte>,
    special: seq<byte>, specialHuman: seq<byte>,
    alphaUpper: seq<byte>, alphaUpperHuman: seq<byte>)

  datatype Config = Config(
    algorithm: Algorithm,
    fixedLength: int64, minLength: int64, maxLength: int64,
    mode: Mode,
    minLowerCase: int64, minNumeric: int64, minSpecial: int64, minUpperCase: int64)

  /** A generator: one immutable configuration and the class sets it uses. */
  datatype Generator = Generator(config: Config, sets: CharSets)
}
