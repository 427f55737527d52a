/** `Generate`: dispatch on the algorithm, and the generate-and-validate
    retry loop of the random-password algorithm. */
module Pipeline {
  import opened Types
  import opened RandomSource
  import opened Length
  import opened CharRange
  import opened Sampler
  import opened Validator

  /** "Heads" and "Tails" as ASCII bytes. */
  const Heads: seq<byte> := [0x48, 0x65, 0x61, 0x64, 0x73]
  const Tails: seq<byte> := [0x54, 0x61, 0x69, 0x6c, 0x73]

  /** `generateCoinFlip()`: "Heads" exactly when the flip is true. */
  function GenerateCoinFlip(rng: RandInt): (r: Result<seq<byte>>)
    ensures r.Success?
    ensures r.value == Heads <==> rng(2) == Drawn(1)
    ensures r.value == Tails <==> rng(2) != Drawn(1)
  {
    if CoinFlipBool(rng) then Success(Heads) else Success(Tails)
  }

  /** Attempt `k` of the retry loop was sampled and rejected: it starts at
      `starts[k]` with a sample `rejected[k]` that fails the minimums, and
      the next attempt starts where it stopped reading. */
  ghost predicate Rejected(g: Generator, length: int64, cr: seq<byte>, entropy: seq<Draw>,
                           starts: seq<nat>, rejected: seq<seq<byte>>, k: nat)
  {
    k < |rejected| < |starts| && starts[k] <= starts[k + 1] <= |entropy| &&
    SampleOutcome(length as int, cr, entropy[starts[k]..], Success(rejected[k]), starts[k + 1] - starts[k]) &&
    !MeetsMinimums(g, rejected[k])
  }

  /** The attempts of the retry loop that were sampled and rejected, in the
      order they were made, the first one starting at the first read. */
  ghost predicate Rejections(g: Generator, length: int64, cr: seq<byte>, entropy: seq<Draw>,
                             starts: seq<nat>, rejected: seq<seq<byte>>)
  {
    |starts| == |rejected| + 1 && starts[0] == 0 && starts[|rejected|] <= |entropy| &&
    forall k: nat :: k < |rejected| ==> Rejected(g, length, cr, entropy, starts, rejected, k)
  }

  /** A whole run of the retry loop: the rejected attempts, then a last
      attempt whose outcome is the result, a sample meeting the minimums or
      the sampling error that ended the loop. */
  ghost predicate Run(g: Generator, length: int64, cr: seq<byte>, entropy: seq<Draw>,
                      starts: seq<nat>, rejected: seq<seq<byte>>, res: Result<seq<byte>>, used: nat)
  {
    Rejections(g, length, cr, entropy, starts, rejected) &&
    SampleOutcome(length as int, cr, entropy[starts[|rejected|]..], res, used) &&
    (res.Success? ==> MeetsMinimums(g, res.value))
  }

  /** The outcome of `generateRandom()`: a wrapped length error, the empty
      alphabet's error, or the end of a run of the retry loop. */
  ghost predicate RandomOutcome(g: Generator, rng: RandInt, entropy: seq<Draw>, res: Result<seq<byte>>)
  {
    var l := GetPasswordLength(g.config, rng);
    if l.Failure? then res == Failure(LengthFailed(l.error))
    else if CharRangeOf(g) == [] then res == Failure(InvalidCharRange)
    else exists starts, rejected, used :: Run(g, l.value, CharRangeOf(g), entropy, starts, rejected, res, used)
  }

  /** Whatever the retry loop ends with: a password of the resolved length,
      from the alphabet, meeting the minimums, or one of the listed errors. */
  lemma RandomOutcomeShape(g: Generator, rng: RandInt, entropy: seq<Draw>, res: Result<seq<byte>>)
    requires RandomOutcome(g, rng, entropy, res)
    ensures res.Success? ==>
      GetPasswordLength(g.config, rng).Success? &&
      |res.value| == GetPasswordLength(g.config, rng).value as int &&
      MeetsMinimums(g, res.value) &&
      forall k :: 0 <= k < |res.value| ==> res.value[k] in CharRangeOf(g)
    ensures res.Failure? ==>
      res.error in {InvalidCharRange, ReadFailed, EntropyExhausted} || res.error.LengthFailed?
  {
    var l := GetPasswordLength(g.config, rng);
    if l.Success? && CharRangeOf(g) != [] {
      var starts, rejected, used :| Run(g, l.value, CharRangeOf(g), entropy, starts, rejected, res, used);
      if res.Success? {
        SampleShape(l.value as int, CharRangeOf(g), entropy[starts[|rejected|]..], res.value, used);
      }
    }
  }

  /** The retry loop of `generateRandom()`: sample from where the previous
      attempt stopped reading until a sample meets the minimums; a sampling
      error ends the loop and is returned as it is. */
  method Retry(g: Generator, length: int64, cr: seq<byte>, entropy: seq<Draw>)
    returns (res: Result<seq<byte>>, ghost starts: seq<nat>, ghost rejected: seq<seq<byte>>, ghost used: nat)
    requires length >= 1
    ensures cr == [] ==> res == Failure(InvalidCharRange)
    ensures cr != [] ==> Run(g, length, cr, entropy, starts, rejected, res, used)
  {
    starts, rejected := [0], [];
    var pos := 0;
    while true
      invariant Rejections(g, length, cr, entropy, starts, rejected)
      invariant pos == starts[|rejected|]
      decreases |entropy| - pos
    {
      var sample, n := RandomStringFromCharRange(length, cr, entropy[pos..]);
      if sample.Failure? {
        return Failure(sample.error), starts, rejected, n;
      }
      var ok := CheckMinimumRequirements(g, sample.value);
      if ok {
        return sample, starts, rejected, n;
      }
      RejectOne(g, length, cr, entropy, starts, rejected, sample.value, n);
      starts, rejected := starts + [pos + n], rejected + [sample.value];
      pos := pos + n;
    }
  }

  /** `generateRandom()`: resolve the length, compose the alphabet, then run
      the retry loop. A length error is wrapped. */
  method GenerateRandom(g: Generator, rng: RandInt, entropy: seq<Draw>) returns (res: Result<seq<byte>>)
    ensures RandomOutcome(g, rng, entropy, res)
    ensures GetPasswordLength(g.config, rng).Failure? ==>
      res == Failure(LengthFailed(GetPasswordLength(g.config, rng).error))
    ensures GetPasswordLength(g.config, rng).Success? && CharRangeOf(g) == [] ==>
      res == Failure(InvalidCharRange)
    ensures res.Success? ==>
      GetPasswordLength(g.config, rng).Success? &&
      |res.value| == GetPasswordLength(g.config, rng).value as int &&
      MeetsMinimums(g, res.value) &&
      forall k :: 0 <= k < |res.value| ==> res.value[k] in CharRangeOf(g)
    ensures res.Failure? ==>
      res.error in {InvalidCharRange, ReadFailed, EntropyExhausted} || res.error.LengthFailed?
  {
    var l := GetPasswordLength(g.config, rng);
    if l.Failure? {
      return Failure(LengthFailed(l.error));
    }
    var cr := GetCharRangeFromConfig(g);
    ghost var starts, rejected, used;
    res, starts, rejected, used := Retry(g, l.value, cr, entropy);
    if cr != [] {
      assert Run(g, l.value, cr, entropy, starts, rejected, res, used);
    }
    RandomOutcomeShape(g, rng, entropy, res);
  }

  /** A rejected sample extends the attempts by one. */
  lemma RejectOne(g: Generator, length: int64, cr: seq<byte>, entropy: seq<Draw>,
                  starts: seq<nat>, rejected: seq<seq<byte>>, pw: seq<byte>, used: nat)
    requires Rejections(g, length, cr, entropy, starts, rejected)
    requires SampleOutcome(length as int, cr, entropy[starts[|rejected|]..], Success(pw), used)
    requires !MeetsMinimums(g, pw)
    ensures Rejections(g, length, cr, entropy, starts + [starts[|rejected|] + used], rejected + [pw])
  {
    var s, rj := starts + [starts[|rejected|] + used], rejected + [pw];
    forall k: nat | k < |rj|
      ensures Rejected(g, length, cr, entropy, s, rj, k)
    {
      if k < |rejected| {
        assert Rejected(g, length, cr, entropy, starts, rejected, k);
        assert s[k] == starts[k] && s[k + 1] == starts[k + 1] && rj[k] == rejected[k];
      }
    }
  }

  /** `Generate()`: the coin flip, the random password, an error for the
      unsupported selector, and an empty success for any other selector. */
  method Generate(g: Generator, rng: RandInt, entropy: seq<Draw>) returns (res: Result<seq<byte>>)
    ensures g.config.algorithm == AlgoUnsupported ==> res == Failure(UnsupportedAlgorithm)
    ensures g.config.algorithm.AlgoOther? ==> res == Success([])
    ensures g.config.algorithm == AlgoCoinFlip ==>
      res == Success(if CoinFlipBool(rng) then Heads else Tails)
    ensures g.config.algorithm == AlgoRandom && res.Success? ==>
      GetPasswordLength(g.config, rng).Success? &&
      |res.value| == GetPasswordLength(g.config, rng).value as int &&
      MeetsMinimums(g, res.value) &&
      forall k :: 0 <= k < |res.value| ==> res.value[k] in CharRangeOf(g)
    ensures g.config.algorithm == AlgoRandom && GetPasswordLength(g.config, rng).Failure? ==>
      res == Failure(LengthFailed(GetPasswordLength(g.config, rng).error))
    ensures (g.config.algorithm == AlgoRandom && GetPasswordLength(g.config, rng).Success? &&
             CharRangeOf(g) == []) ==> res == Failure(InvalidCharRange)
    ensures g.config.algorithm == AlgoRandom && res.Failure? ==>
      res.error in {InvalidCharRange, ReadFailed, EntropyExhausted} || res.error.LengthFailed?
    ensures g.config.algorithm == AlgoRandom ==> RandomOutcome(g, rng, entropy, res)
  {
    match g.config.algorithm
    case AlgoCoinFlip =>
      res := GenerateCoinFlip(rng);
    case AlgoRandom =>
      res := GenerateRandom(g, rng, entropy);
    case AlgoUnsupported =>
      res := Failure(UnsupportedAlgorithm);
    case AlgoOther(_) =>
      res := Success([]);
  }
}
