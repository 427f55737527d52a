# apg random-password core in Dafny

This project models the password-generation logic of the `Generator` type in
`random.go` of apg.go:

- the bit-batched rejection sampler `RandomStringFromCharRange`;
- the length resolution `GetPasswordLength` over the bounded-integer oracle `RandNum`;
- the alphabet composition `GetCharRangeFromConfig`;
- the minimum-count validator `checkMinimumRequirements`;
- the retry pipeline `generateRandom`;
- the dispatch `Generate`;
- the coin-flip helpers;
- the argument and error checks of `RandomBytes`.

Modules follow those components:

- `Types` holds Go's `byte` and `int64`, the errors, the entropy draws and the configuration.
- `RandomSource`, `Sampler`, `CharRange`, `Validator`, `Length` and `Pipeline` hold the operations.

The entropy source is injected:

- The sampler reads a sequence of `Draw`s. Each `Draw` is one 8-byte `rand.Read`, either a 64-bit word or a read fault.
- `RandNum` asks a `RandInt` oracle. This stands for `rand.Int`: asked for `m >= 1`, it answers a value in `[0, m)` or faults.

Given these inputs, every operation is deterministic, so its result can be stated exactly.

The sampler's contract pins down its result completely:

- the characters of the range at the first `length` accepted candidates of the words it read;
- candidates are cut nine per word, seven bits each, lowest bits first;
- a candidate is accepted only when it is below the range's length;
- a rejected candidate is dropped, never reduced modulo the length;
- the last word read was needed, so no word is read before the nine candidates of the current one are used up.

Strings are byte strings, and every class set is assumed to be single-byte ASCII.

Three behaviours of the code worth noting:

- When `MinLength > MaxLength`, the upper bound is raised to `MinLength` and the bounds are not swapped (random.go:66-68).
- An empty alphabet is refused by the sampler (random.go:119-121); the pipeline passes it on unchecked, and its first sample fails.
- An algorithm selector that is none of the three named values gives an empty password and no error (random.go:46-55).

## Model

| member | source | states |
|---|---|---|
| `Types.Wrap64` | random.go:69 | int64 arithmetic is two's-complement: values in range are unchanged, and values just above `MaxInt64` wrap to negative |
| `RandomSource.RandomBytes` | random.go:83-97 | length < 1 gives `InvalidLength` before reading; a short read gives `LengthMismatch`, checked before Read's error; a full read that faults gives Read's error `ReadFailed`; success returns exactly `length` bytes |
| `RandomSource.RandNum` | random.go:100-110 | `max < 1` iff `InvalidLength`; success gives a value in `[0, max)` equal to the oracle's draw; an oracle fault gives the wrapped error |
| `RandomSource.CoinFlip` | random.go:33-37 | the flip is the value `RandNum(2)` draws, so 0 or 1, and 1 exactly when the oracle draws 1; it is 0 when `RandNum(2)` fails because the error is discarded |
| `RandomSource.CoinFlipBool` | random.go:39-42 | `CoinFlipBool` is true exactly when the draw of `RandNum(2)` is 1, and false on a draw of 0 or a fault |
| `Sampler.Candidate` | random.go:145 | the candidate `c & letterIdxMask` is below 128 |
| `Sampler.ChunksFrom` | random.go:12-19 | a word with `r` candidates left yields exactly `r` candidates, each below 128 |
| `Sampler.ChunksShape` | random.go:137-151 | `k` words supply exactly `9 * k` candidates, each below 128 |
| `Sampler.Accepted` | random.go:145-148 | every accepted candidate is below the range's length |
| `Sampler.AcceptedAppend` | random.go:137-151 | acceptance is decided candidate by candidate: accepting a concatenation is concatenating the accepted parts |
| `Sampler.AcceptedMembers` | random.go:145-148 | rejection, not reduction: a value is accepted iff it is a candidate and below the length; no more values are accepted than there are candidates |
| `Sampler.ChosenIndexBound` | random.go:145-146 | every chosen position is below both the range's length and 128 |
| `Sampler.AcceptedPrefix` | random.go:137-151 | the first accepted candidates of a stream are fixed by any prefix that already holds them, so later words cannot change them |
| `Sampler.SampleShape` | random.go:137-153 | a successful sample has exactly `length` bytes, each occurring in the range among its first 128 positions |
| `Sampler.UsedUpStep` | random.go:138-144 | a new word is read only once the current word's candidates are used up; the words read until then did not suffice, and the loop state stays consistent |
| `Sampler.ConsumeStep` | random.go:145-150 | consuming `c & 127`, then `c >>= 7`, `r--`: an accepted candidate appends `charRange[idx]` and decrements `i`; a rejected one leaves `i` and the output unchanged |
| `Sampler.Consume` | random.go:145-150 | one pass consumes the low candidate: the word is shifted by seven bits and one candidate fewer remains; an accepted candidate appends `charRange[idx]` and one character fewer is wanted, a rejected one changes neither; the loop's state stays consistent |
| `Sampler.SampleLoop` | random.go:137-153 | from the first word on, the outcome is the range's characters at the first `length` accepted candidates of the words read, where the last word was needed; a needed read that faults gives its error |
| `Sampler.RandomStringFromCharRange` | random.go:115-154 | `length < 1` gives `InvalidLength` and an empty range gives `InvalidCharRange`, both before any read; otherwise the outcome of the loop; success gives exactly `length` bytes, each in the range |
| `CharRange.ComposeMembers` | random.go:158-193 | a byte is in the composed alphabet iff it is in the set of an enabled class, in the variant the human-readable flag selects |
| `CharRange.ComposeLength` | random.go:158-193 | the alphabet's length is the sum of the enabled sets' lengths, at most the sum over all classes |
| `CharRange.ComposeNoneEnabled` | random.go:158-193 | with no class enabled the alphabet is empty |
| `CharRange.ComposeUnrolled` | random.go:158-193 | the alphabet is the enabled sets concatenated in the order lower, numeric, special, upper |
| `CharRange.CharRangeMembers` | random.go:158-193 | a byte is in a generator's alphabet iff some enabled class's set holds it |
| `CharRange.GetCharRangeFromConfig` | random.go:158-193 | the builder's result is the canonical-order composition, and empty when no class flag is set |
| `Validator.ClassCount` | random.go:206-209 | the number of positions holding a class character never exceeds the password's length |
| `Validator.SumCountsIsClassCount` | random.go:206-209 | for a class set without repeated characters, the summed per-character counts equal the number of positions holding a class character |
| `Validator.MissingClassFails` | random.go:195-266 | a class with a positive minimum and none of its characters in the password fails the check |
| `Validator.MinimumAboveLengthFails` | random.go:195-266 | for a class set without repeated characters, a minimum above the password's length can never be met, so the retry loop cannot succeed with it |
| `Validator.CountClass` | random.go:206-209 | the loop's sum is the summed occurrence count, and the number of class positions when the set has no repeats |
| `Validator.AllClasses` | random.go:195-266 | the check passes iff each of the four classes passes |
| `Validator.CheckMinimumRequirements` | random.go:195-266 | true iff every class with a positive minimum has a count at least that minimum; true when all minima are 0 |
| `Length.GetPasswordLength` | random.go:60-79 | a positive fixed length is returned unchanged; otherwise the result is `MinLength` plus the oracle's draw for the width `max(MinLength, MaxLength) - MinLength + 1`, or 1 when that sum is not positive, so it lies in `[MinLength, max(MinLength, MaxLength)]` or is 1 and is always >= 1; inverted bounds give `MinLength` or 1; fails iff the int64 width overflows (`InvalidLength`) or the oracle faults (RandNum's wrapped `RandNumFailed`, passed on unchanged) |
| `Length.EqualBounds` | random.go:64-78 | equal bounds give that length (1 if it is not positive) whenever the oracle answers |
| `Pipeline.GenerateCoinFlip` | random.go:270-277 | "Heads" iff the flip's draw is 1, "Tails" otherwise, never an error |
| `Pipeline.RejectOne` | random.go:289-295 | a sample that fails the minimums extends the run by one rejected attempt, and the next attempt starts where it stopped reading |
| `Pipeline.Retry` | random.go:287-297 | with an empty alphabet the first sample's `InvalidCharRange` is returned; otherwise the result ends a run: every earlier attempt sampled successfully and failed the minimums, each starting where the previous one stopped reading, and the result is the last attempt's outcome, a sample meeting the minimums or the sampling error that ended the loop |
| `Pipeline.RandomOutcomeShape` | random.go:281-298 | whatever `generateRandom` returns is a password of the resolved length, from the alphabet, meeting every minimum, or a wrapped length error, `InvalidCharRange`, a read fault or the end of the stream |
| `Pipeline.GenerateRandom` | random.go:281-298 | a length error is wrapped; an empty alphabet gives `InvalidCharRange`; otherwise the result is that of a run of the retry loop (the first sample meeting the minimums, after rejected attempts, or the error of the attempt that failed); success is a password of the resolved length, from the alphabet, that meets every minimum |
| `Pipeline.Generate` | random.go:46-56 | `AlgoUnsupported` is an error with no output; an unknown selector gives an empty success; `AlgoCoinFlip` gives "Heads" iff `CoinFlipBool`; `AlgoRandom` has `generateRandom`'s outcome: the wrapped length error, `InvalidCharRange` for an empty alphabet, a run of the retry loop, and only the listed failures |

## Left out

- `crypto/rand` and `math/big` internals: `rand.Read` is a `Draw` per 8-byte read, and `rand.Int` is the `RandInt` oracle. The two draw from the same reader in Go but are two independent injected sources here.
- `binary.BigEndian.Uint64`: each `Draw` holds the already decoded 64-bit word.
- The in-place refill of the 8-byte buffer `rp` and the `strings.Builder`: the model reads the next `Draw` and appends to a sequence.
- The `rs.Grow` allocation hint and `maxInt32`: they only affect performance.
- The partial string returned together with a read error: only the error outcome is modelled.
- Statistical uniformity: not provable here. The structural rejection-without-modulo behaviour is proved instead.
- Termination: with a true entropy source, the sampler and the retry loop can run forever (adversarial words, or minima that cannot be met). The model's stream is finite, and running off its end gives the model-only error `EntropyExhausted`.
- The `MaskHasMode`/`Mode*` bit arithmetic and the `CharRange*` constants: they are defined outside the core. The model takes them as the `Mode` flags and the `CharSets` strings.
- Rune iteration and `strings.Count` over UTF-8: class sets are taken as single-byte ASCII.
- Error message texts: the errors are constructors of `Error`.
