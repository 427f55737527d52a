/** The generator's two entry points into crypto/rand: raw bytes and a
    bounded integer, plus the coin flip built on the latter. */
module RandomSource {
  import opened Types

  /** What one `rand.Read` into a buffer did: the bytes it filled (their
      count is Read's `n`) and whether it also returned an error. */
  datatype ReadOutcome = ReadOutcome(data: seq<byte>, fault: bool)

  /** `RandomBytes(length)`: a non-positive length is refused before reading;
      a short read is reported as a length mismatch, and that check comes
      before the check of Read's error. */
  function RandomBytes(length: int64, read: ReadOutcome): (r: Result<seq<byte>>)
    ensures length < 1 ==> r == Failure(InvalidLength)
    ensures length >= 1 && |read.data| != length as int ==> r == Failure(LengthMismatch)
    ensures r.Success? <==> length >= 1 && |read.data| == length as int && !read.fault
    ensures r.Success? ==> |r.value| == length as int && r.value == read.data
    ensures r.Failure? ==> r.error in {InvalidLength, LengthMismatch, ReadFailed}
    ensures length >= 1 && |read.data| == length as int && read.fault ==> r == Failure(ReadFailed)
  {
    if length < 1 then Failure(InvalidLength)
    else if |read.data| != length as int then Failure(LengthMismatch)
    else if read.fault then Failure(ReadFailed)
    else Success(read.data)
  }

  /** `RandNum(max)`: a value in `[0, max)`; a bound below 1 is refused with
      `InvalidLength` before the oracle is asked, and an oracle fault is
      wrapped. */
  function RandNum(max: int64, rng: RandInt): (r: Result<int64>)
    ensures max < 1 <==> r == Failure(InvalidLength)
    ensures r.Success? ==> 0 <= r.value < max
    ensures max >= 1 ==> (r.Success? <==> rng(max as int).Drawn?)
    ensures r.Success? ==> r.value as int == rng(max as int).value
    ensures r.Failure? ==> r.error in {InvalidLength, RandNumFailed}
  {
    if max < 1 then Failure(InvalidLength)
    else match rng(max as int)
      case Drawn(v) => Success(v as int64)
      case IntFault => Failure(RandNumFailed)
  }

  /** `CoinFlip()`: `RandNum(2)` with its error discarded, so a fault reads
      as 0. */
  function CoinFlip(rng: RandInt): (r: int64)
    ensures r == 0 || r == 1
    ensures RandNum(2, rng).Failure? ==> r == 0
    ensures RandNum(2, rng).Success? ==> r == RandNum(2, rng).value
    ensures r == 1 <==> rng(2) == Drawn(1)
  {
    match RandNum(2, rng)
    case Success(v) => v
    case Failure(_) => 0
  }

  /** `CoinFlipBool()`: true exactly on a flip of 1. The flip is decided by
      the one draw of the bounded-integer oracle: true exactly when that draw
      is 1, and false on a draw of 0 or when the oracle faults. */
  function CoinFlipBool(rng: RandInt): (r: bool)
    ensures r <==> rng(2) == Drawn(1)
    ensures !r <==> rng(2) == Drawn(0) || rng(2) == IntFault
  {
    assert RandNum(2, rng).Success? <==> rng(2).Drawn?;
    CoinFlip(rng) == 1
  }
}
