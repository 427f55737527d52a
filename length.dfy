/** `GetPasswordLength`: the length of the next password. */
module Length {
  import opened Types
  import opened RandomSource

  /** The upper bound actually used: `maxLength`, raised to `minLength` when
      the bounds are inverted (they are not swapped). */
  function UpperBound(config: Config): int64
  {
    if config.minLength > config.maxLength then config.minLength else config.maxLength
  }

  /** `GetPasswordLength()`: a positive fixed length wins outright; otherwise
      one draw in `[minLength, UpperBound]`, and a non-positive draw becomes 1.
      The width `UpperBound - minLength + 1` is computed in int64 and wraps
      when it exceeds `MaxInt64`, which `RandNum` then refuses. */
  function GetPasswordLength(config: Config, rng: RandInt): (r: Result<int64>)
    ensures config.fixedLength > 0 ==> r == Success(config.fixedLength)
    ensures r.Success? ==> r.value >= 1
    ensures config.fixedLength <= 0 && r.Success? ==>
      (config.minLength <= r.value <= UpperBound(config)) || (r.value == 1 && config.minLength <= 0)
    ensures config.fixedLength <= 0 && r.Success? && config.minLength > config.maxLength ==>
      r.value == config.minLength || r.value == 1
    ensures config.fixedLength <= 0 && UpperBound(config) as int - config.minLength as int + 1 > MaxInt64 ==>
      r == Failure(InvalidLength)
    ensures r.Failure? <==>
      config.fixedLength <= 0 &&
      (UpperBound(config) as int - config.minLength as int + 1 > MaxInt64 ||
       rng(UpperBound(config) as int - config.minLength as int + 1) == IntFault)
    ensures r.Failure? ==> r.error in {InvalidLength, RandNumFailed}
    ensures (config.fixedLength <= 0 && UpperBound(config) as int - config.minLength as int + 1 <= MaxInt64 &&
             r.Failure?) ==> r.error == RandNumFailed
    ensures config.fixedLength <= 0 && r.Success? ==>
      var d := rng(UpperBound(config) as int - config.minLength as int + 1);
      d.Drawn? &&
      r.value as int == (if config.minLength as int + d.value <= 0 then 1 else config.minLength as int + d.value)
  {
    if config.fixedLength > 0 then Success(config.fixedLength)
    else
      var minLength := config.minLength;
      var maxLength := UpperBound(config);
      var diff := Wrap64(maxLength as int - minLength as int + 1);
      match RandNum(diff, rng)
      case Failure(e) => Failure(e)
      case Success(n) =>
        var length := Wrap64(minLength as int + n as int);
        if length <= 0 then Success(1) else Success(length)
  }

  /** Equal bounds and no fixed length give that length, when it is positive
      and the oracle does not fault. */
  lemma EqualBounds(config: Config, rng: RandInt)
    requires config.fixedLength <= 0 && config.minLength == config.maxLength
    ensures rng(1).Drawn? ==> GetPasswordLength(config, rng) == Success(if config.minLength <= 0 then 1 else config.minLength)
  {
  }
}
