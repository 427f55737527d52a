/** `RandomStringFromCharRange`: bit-batched rejection sampling of indices
    into a character range from a stream of 64-bit words. */
module Sampler {
  import opened Types

  /** Bits per candidate index (`letterIdxBits`). */
  const LetterIdxBits: bv64 := 7
  /** The low `LetterIdxBits` bits set (`letterIdxMask`). */
  const LetterIdxMask: bv64 := 127
  /** Candidates cut from one word (`letterIdxMax = 63 / 7`). */
  const LetterIdxMax: nat := 9

  /** The candidate index in the low bits of `c`. */
  function Candidate(c: bv64): (x: nat)
    ensures x < 128
  {
    (c & LetterIdxMask) as int
  }

  /** The word with its low candidate consumed (`c >>= letterIdxBits`). */
  function Rest(c: bv64): bv64
  {
    c >> LetterIdxBits
  }

  /** The `r` candidates still held by a partly consumed word `c`, lowest
      bits first. */
  function ChunksFrom(c: bv64, r: nat): (cs: seq<nat>)
    ensures |cs| == r
    ensures forall k :: 0 <= k < |cs| ==> cs[k] < 128
  {
    if r == 0 then [] else [Candidate(c)] + ChunksFrom(Rest(c), r - 1)
  }

  /** The candidates one fresh word supplies. */
  function WordChunks(w: bv64): seq<nat>
  {
    ChunksFrom(w, LetterIdxMax)
  }

  /** The candidates of a sequence of words, word after word. */
  function Chunks(ws: seq<bv64>): (cs: seq<nat>)
  {
    if ws == [] then [] else Chunks(ws[..|ws| - 1]) + WordChunks(ws[|ws| - 1])
  }

  /** The candidates that are kept: those below `n`, in order, unchanged.
      Nothing is reduced modulo `n`. */
  function Accepted(cs: seq<nat>, n: int): (a: seq<nat>)
    ensures forall k :: 0 <= k < |a| ==> a[k] < n
  {
    if cs == [] then []
    else Accepted(cs[..|cs| - 1], n) + (if cs[|cs| - 1] < n then [cs[|cs| - 1]] else [])
  }

  /** The bytes of `cr` at the given positions. */
  function Lookup(cr: seq<byte>, idxs: seq<nat>): (s: seq<byte>)
    requires forall k :: 0 <= k < |idxs| ==> idxs[k] < |cr|
    ensures |s| == |idxs|
  {
    seq(|idxs|, k requires 0 <= k < |idxs| => cr[idxs[k]])
  }

  predicate AllWords(ds: seq<Draw>)
  {
    forall k :: 0 <= k < |ds| ==> ds[k].Word?
  }

  function Words(ds: seq<Draw>): (ws: seq<bv64>)
    requires AllWords(ds)
    ensures |ws| == |ds|
  {
    seq(|ds|, k requires 0 <= k < |ds| => ds[k].bits)
  }

  /** The reads `ds` all succeeded and still yield fewer than `length`
      accepted candidates for a range of `n` characters. */
  predicate Starved(ds: seq<Draw>, n: int, length: int)
  {
    AllWords(ds) && |Accepted(Chunks(Words(ds)), n)| < length
  }

  /** Every word gives exactly nine candidates, each below 128. */
  lemma {:induction false} ChunksShape(ws: seq<bv64>)
    ensures |Chunks(ws)| == LetterIdxMax * |ws|
    ensures forall k :: 0 <= k < |Chunks(ws)| ==> Chunks(ws)[k] < 128
  {
    if ws != [] {
      ChunksShape(ws[..|ws| - 1]);
    }
  }

  lemma {:induction false} AcceptedAppend(a: seq<nat>, b: seq<nat>, n: int)
    ensures Accepted(a + b, n) == Accepted(a, n) + Accepted(b, n)
  {
    if b == [] {
      assert a + b == a;
    } else {
      var b' := b[..|b| - 1];
      assert (a + b)[..|a + b| - 1] == a + b';
      AcceptedAppend(a, b', n);
    }
  }

  /** Rejection, not reduction: a value is accepted exactly when it is one of
      the candidates and lies below `n`; the accepted ones are never more
      than the candidates. */
  lemma {:induction false} AcceptedMembers(cs: seq<nat>, n: int)
    ensures |Accepted(cs, n)| <= |cs|
    ensures forall x :: x in Accepted(cs, n) <==> x in cs && x < n
  {
    if cs != [] {
      var p := cs[..|cs| - 1];
      AcceptedMembers(p, n);
      assert cs == p + [cs[|cs| - 1]];
      forall x | x in cs ensures x in p || x == cs[|cs| - 1] {
      }
    }
  }

  /** The positions the sampler can pick lie below both the range's length
      and 128: characters at position 128 or later are never chosen. */
  lemma ChosenIndexBound(ws: seq<bv64>, n: int)
    ensures forall x :: x in Accepted(Chunks(ws), n) ==> x < n && x < 128
  {
    ChunksShape(ws);
    AcceptedMembers(Chunks(ws), n);
  }

  /** The first accepted candidates of a stream are decided by any prefix of
      it that already holds that many. */
  lemma AcceptedPrefix(p: seq<nat>, cs: seq<nat>, n: int)
    requires p <= cs
    ensures |Accepted(p, n)| <= |Accepted(cs, n)|
    ensures Accepted(cs, n)[..|Accepted(p, n)|] == Accepted(p, n)
  {
    assert cs == p + cs[|p|..];
    AcceptedAppend(p, cs[|p|..], n);
  }

  /** One more successful read extends the words read by its word. */
  lemma WordsSnoc(entropy: seq<Draw>, n: nat)
    requires n < |entropy| && AllWords(entropy[..n]) && entropy[n].Word?
    ensures AllWords(entropy[..n + 1])
    ensures Words(entropy[..n + 1]) == Words(entropy[..n]) + [entropy[n].bits]
  {
    assert entropy[..n + 1] == entropy[..n] + [entropy[n]];
  }

  /** The words of all reads but the last are the words read but the last. */
  lemma WordsPrefix(entropy: seq<Draw>, n: nat)
    requires 1 <= n <= |entropy| && AllWords(entropy[..n])
    ensures AllWords(entropy[..n - 1])
    ensures Words(entropy[..n - 1]) == Words(entropy[..n])[..n - 1]
  {
    assert entropy[..n - 1] == entropy[..n][..n - 1];
  }

  /** Looking up one more position appends the byte at that position. */
  lemma LookupSnoc(cr: seq<byte>, idxs: seq<nat>, x: nat)
    requires forall k :: 0 <= k < |idxs| ==> idxs[k] < |cr|
    requires x < |cr|
    ensures forall k :: 0 <= k < |idxs + [x]| ==> (idxs + [x])[k] < |cr|
    ensures Lookup(cr, idxs + [x]) == Lookup(cr, idxs) + [cr[x]]
  {
    assert forall k :: 0 <= k < |idxs + [x]| ==> (idxs + [x])[k] < |cr|;
  }

  lemma ChunksSnoc(ws: seq<bv64>, w: bv64)
    ensures Chunks(ws + [w]) == Chunks(ws) + WordChunks(w)
  {
    assert (ws + [w])[..|ws|] == ws;
  }

  /** Taking the low candidate of the current word moves it from the word to
      the consumed candidates, and accepts it exactly when it is below `n`. */
  lemma ConsumeKeeps(seen: seq<nat>, c: bv64, r: nat, n: int)
    requires r > 0
    ensures seen + ChunksFrom(c, r) == (seen + [Candidate(c)]) + ChunksFrom(Rest(c), r - 1)
    ensures Accepted(seen + [Candidate(c)], n) ==
      Accepted(seen, n) + (if Candidate(c) < n then [Candidate(c)] else [])
  {
    var s' := seen + [Candidate(c)];
    assert s'[..|s'| - 1] == seen;
  }

  /** When the loop stops, the characters it wrote are those at the first
      `length` accepted candidates of all the words it read. */
  lemma FinishKeeps(cr: seq<byte>, seen: seq<nat>, all: seq<nat>, rs: seq<byte>, length: nat)
    requires seen <= all
    requires |Accepted(seen, |cr|)| == length
    requires rs == Lookup(cr, Accepted(seen, |cr|))
    ensures |Accepted(all, |cr|)| >= length
    ensures rs == Lookup(cr, Accepted(all, |cr|)[..length])
  {
    AcceptedPrefix(seen, all, |cr|);
  }

  /** What the sampler may return after `used` reads from `entropy`, for a
      positive `length` and a non-empty range `cr`: the range's characters at
      the first `length` accepted candidates of the words read, where the last
      word was needed; or the fault of a read that was needed; or, in the
      model only, the end of a stream that did not suffice. */
  ghost predicate SampleOutcome(length: int, cr: seq<byte>, entropy: seq<Draw>,
                                res: Result<seq<byte>>, used: nat)
  {
    used <= |entropy| &&
    match res
    case Success(pw) =>
      1 <= used && Starved(entropy[..used - 1], |cr|, length) && AllWords(entropy[..used]) &&
      |Accepted(Chunks(Words(entropy[..used])), |cr|)| >= length &&
      pw == Lookup(cr, Accepted(Chunks(Words(entropy[..used])), |cr|)[..length])
    case Failure(e) =>
      (e == ReadFailed && 1 <= used && Starved(entropy[..used - 1], |cr|, length) &&
        entropy[used - 1] == ReadFault) ||
      (e == EntropyExhausted && used == |entropy| && Starved(entropy, |cr|, length))
  }

  /** A successful sample has exactly `length` characters, each from the
      range, and each taken from one of its first 128 positions. */
  lemma SampleShape(length: int, cr: seq<byte>, entropy: seq<Draw>, pw: seq<byte>, used: nat)
    requires SampleOutcome(length, cr, entropy, Success(pw), used)
    ensures |pw| == length
    ensures forall k :: 0 <= k < |pw| ==> pw[k] in cr
    ensures forall k :: 0 <= k < |pw| ==> pw[k] in cr[..if |cr| < 128 then |cr| else 128]
  {
    var acc := Accepted(Chunks(Words(entropy[..used])), |cr|);
    ChosenIndexBound(Words(entropy[..used]), |cr|);
    forall k | 0 <= k < |pw|
      ensures pw[k] in cr
      ensures pw[k] in cr[..if |cr| < 128 then |cr| else 128]
    {
      var j := acc[k];
      assert acc[..length][k] == j && j in acc;
      assert pw[k] == Lookup(cr, acc[..length])[k] == cr[j];
      assert 0 <= j < |cr| && j < 128;
      assert cr[..if |cr| < 128 then |cr| else 128][j] == cr[j];
    }
  }

  /** `RandomStringFromCharRange(length, charRange)` reading its words from
      `entropy`; `used` is the number of 8-byte reads it made. Both argument
      checks come before any read. */
  method RandomStringFromCharRange(length: int64, charRange: seq<byte>, entropy: seq<Draw>)
    returns (res: Result<seq<byte>>, used: nat)
    ensures length < 1 ==> res == Failure(InvalidLength) && used == 0
    ensures length >= 1 && |charRange| < 1 ==> res == Failure(InvalidCharRange) && used == 0
    ensures length >= 1 && |charRange| >= 1 ==> SampleOutcome(length as int, charRange, entropy, res, used)
    ensures res.Success? ==> |res.value| == length as int
    ensures res.Success? ==> forall k :: 0 <= k < |res.value| ==> res.value[k] in charRange
  {
    if length < 1 {
      return Failure(InvalidLength), 0;
    }
    if |charRange| < 1 {
      return Failure(InvalidCharRange), 0;
    }
    if |entropy| == 0 {
      assert entropy[..0] == entropy;
      return Failure(EntropyExhausted), 0;
    }
    if entropy[0].ReadFault? {
      assert entropy[..0] == [];
      return Failure(ReadFailed), 1;
    }
    res, used := SampleLoop(length, charRange, entropy);
    if res.Success? {
      SampleShape(length as int, charRange, entropy, res.value, used);
    }
  }

  /** The state of the sampling loop: `ws` are the words read (`prev` all
      but the last, which did not suffice), `seen` the candidates consumed,
      `c` holds the `r` candidates not yet consumed, `i + 1` characters are
      still wanted and `rs` holds the range's characters at the accepted
      candidates so far. */
  ghost predicate LoopInv(length: int, cr: seq<byte>, entropy: seq<Draw>, used: nat, i: int,
                          c: bv64, r: nat, ws: seq<bv64>, prev: seq<bv64>, seen: seq<nat>, rs: seq<byte>)
  {
    1 <= used <= |entropy| && AllWords(entropy[..used]) && Words(entropy[..used]) == ws &&
    ws == prev + [ws[|ws| - 1]] &&
    |Accepted(Chunks(prev), |cr|)| < length &&
    seen + ChunksFrom(c, r) == Chunks(ws) &&
    -1 <= i && |Accepted(seen, |cr|)| == length - 1 - i &&
    rs == Lookup(cr, Accepted(seen, |cr|))
  }

  /** When the loop has consumed every candidate of the words read and still
      wants characters, those words did not suffice; reading one more word
      then keeps the loop's state consistent. */
  lemma UsedUpStep(length: int, cr: seq<byte>, entropy: seq<Draw>, used: nat, i: int,
                   c: bv64, ws: seq<bv64>, prev: seq<bv64>, seen: seq<nat>, rs: seq<byte>)
    requires LoopInv(length, cr, entropy, used, i, c, 0, ws, prev, seen, rs)
    requires i >= 0
    ensures Starved(entropy[..used], |cr|, length)
    ensures used < |entropy| && entropy[used].Word? ==>
      LoopInv(length, cr, entropy, used + 1, i, entropy[used].bits, LetterIdxMax,
              ws + [entropy[used].bits], ws, seen, rs)
  {
    assert seen + [] == seen;
    if used < |entropy| && entropy[used].Word? {
      ChunksSnoc(ws, entropy[used].bits);
      WordsSnoc(entropy, used);
    }
  }

  /** Consuming a candidate keeps the loop's state consistent: an accepted
      one appends its character and one character fewer is wanted; a rejected
      one is dropped, not reduced into range, and changes nothing else. */
  lemma ConsumeStep(length: int, cr: seq<byte>, entropy: seq<Draw>, used: nat, i: int,
                    c: bv64, r: nat, ws: seq<bv64>, prev: seq<bv64>, seen: seq<nat>, rs: seq<byte>)
    requires LoopInv(length, cr, entropy, used, i, c, r, ws, prev, seen, rs)
    requires i >= 0 && r > 0
    ensures Candidate(c) < |cr| ==>
      LoopInv(length, cr, entropy, used, i - 1, Rest(c), r - 1,
              ws, prev, seen + [Candidate(c)], rs + [cr[Candidate(c)]])
    ensures Candidate(c) >= |cr| ==>
      LoopInv(length, cr, entropy, used, i, Rest(c), r - 1,
              ws, prev, seen + [Candidate(c)], rs)
  {
    ConsumeKeeps(seen, c, r, |cr|);
    if Candidate(c) < |cr| {
      LookupSnoc(cr, Accepted(seen, |cr|), Candidate(c));
    }
  }

  /** The loop's state once the first word is read. */
  lemma StartStep(length: int, cr: seq<byte>, entropy: seq<Draw>)
    requires length >= 1 && |entropy| >= 1 && entropy[0].Word?
    ensures LoopInv(length, cr, entropy, 1, length - 1, entropy[0].bits, LetterIdxMax,
                    [entropy[0].bits], [], [], [])
  {
    ChunksSnoc([], entropy[0].bits);
    assert entropy[..1] == [entropy[0]];
  }

  lemma ExhaustedOutcome(length: int, cr: seq<byte>, entropy: seq<Draw>)
    requires Starved(entropy[..|entropy|], |cr|, length)
    ensures SampleOutcome(length, cr, entropy, Failure(EntropyExhausted), |entropy|)
  {
    assert entropy[..|entropy|] == entropy;
  }

  lemma FaultOutcome(length: int, cr: seq<byte>, entropy: seq<Draw>, used: nat)
    requires used < |entropy| && entropy[used] == ReadFault
    requires Starved(entropy[..used], |cr|, length)
    ensures SampleOutcome(length, cr, entropy, Failure(ReadFailed), used + 1)
  {
    assert entropy[..used + 1][..used] == entropy[..used];
  }

  lemma SuccessOutcome(length: int, cr: seq<byte>, entropy: seq<Draw>, used: nat,
                       c: bv64, r: nat, ws: seq<bv64>, prev: seq<bv64>, seen: seq<nat>, rs: seq<byte>)
    requires LoopInv(length, cr, entropy, used, -1, c, r, ws, prev, seen, rs)
    ensures SampleOutcome(length, cr, entropy, Success(rs), used)
  {
    WordsPrefix(entropy, used);
    assert Words(entropy[..used - 1]) == prev;
    FinishKeeps(cr, seen, Chunks(ws), rs, length);
  }

  /** One pass over the current word: its low seven bits are the candidate,
      kept only when below the range's length; then the word is shifted and
      one candidate fewer remains in it. */
  method Consume(length: int, cr: seq<byte>, ghost entropy: seq<Draw>, ghost used: nat, i: int,
                 c: bv64, r: nat, ghost ws: seq<bv64>, ghost prev: seq<bv64>, ghost seen: seq<nat>,
                 rs: seq<byte>)
    returns (i': int, c': bv64, r': nat, ghost seen': seq<nat>, rs': seq<byte>)
    requires LoopInv(length, cr, entropy, used, i, c, r, ws, prev, seen, rs)
    requires i >= 0 && r > 0
    ensures c' == Rest(c) && r' == r - 1 && seen' == seen + [Candidate(c)]
    ensures Candidate(c) < |cr| ==> i' == i - 1 && rs' == rs + [cr[Candidate(c)]]
    ensures Candidate(c) >= |cr| ==> i' == i && rs' == rs
    ensures LoopInv(length, cr, entropy, used, i', c', r', ws, prev, seen', rs')
  {
    ConsumeStep(length, cr, entropy, used, i, c, r, ws, prev, seen, rs);
    var idx := Candidate(c);
    i', rs' := i, rs;
    if idx < |cr| {
      rs' := rs + [cr[idx]];
      i' := i - 1;
    }
    seen' := seen + [idx];
    c', r' := Rest(c), r - 1;
  }

  /** The sampling loop, entered with the first word read: each pass takes
      the low seven bits of the word as a candidate, keeps it only when it is
      below the range's length, and reads a new word only when the nine
      candidates of the current one are used up. */
  method SampleLoop(length: int64, charRange: seq<byte>, entropy: seq<Draw>)
    returns (res: Result<seq<byte>>, used: nat)
    requires length >= 1 && |charRange| >= 1
    requires |entropy| >= 1 && entropy[0].Word?
    ensures SampleOutcome(length as int, charRange, entropy, res, used)
  {
    var rs: seq<byte> := [];
    var i: int, c: bv64, r: nat := length as int - 1, entropy[0].bits, LetterIdxMax;
    used := 1;
    // The words read so far, all but the last of them, and the candidates
    // consumed so far.
    ghost var ws: seq<bv64> := [c];
    ghost var prev: seq<bv64> := [];
    ghost var seen: seq<nat> := [];
    StartStep(length as int, charRange, entropy);
    while i >= 0
      invariant LoopInv(length as int, charRange, entropy, used, i, c, r, ws, prev, seen, rs)
      decreases (|entropy| - used) * (LetterIdxMax + 1) + r
    {
      if r == 0 {
        UsedUpStep(length as int, charRange, entropy, used, i, c, ws, prev, seen, rs);
        if used == |entropy| {
          ExhaustedOutcome(length as int, charRange, entropy);
          return Failure(EntropyExhausted), used;
        }
        if entropy[used].ReadFault? {
          FaultOutcome(length as int, charRange, entropy, used);
          return Failure(ReadFailed), used + 1;
        }
        c, r := entropy[used].bits, LetterIdxMax;
        prev, ws := ws, ws + [c];
        used := used + 1;
      }
      i, c, r, seen, rs := Consume(length as int, charRange, entropy, used, i, c, r, ws, prev, seen, rs);
    }
    SuccessOutcome(length as int, charRange, entropy, used, c, r, ws, prev, seen, rs);
    res := Success(rs);
  }
}
