/** `checkMinimumRequirements`: whether a candidate password holds the
    configured minimum number of characters of each class. */
module Validator {
  import opened Types
  import opened CharRange

  /** `strings.Count(pw, string(x))` for a one-byte character `x`. */
  function Occurrences(pw: seq<byte>, x: byte): nat
  {
    if pw == [] then 0
    else Occurrences(pw[..|pw| - 1], x) + (if pw[|pw| - 1] == x then 1 else 0)
  }

  /** The validator's count for a class: the occurrences in `pw` of each
      character of the class's set, summed over the set. */
  function SumCounts(pw: seq<byte>, chars: seq<byte>): nat
  {
    if chars == [] then 0
    else SumCounts(pw, chars[..|chars| - 1]) + Occurrences(pw, chars[|chars| - 1])
  }

  /** The number of positions of `pw` that hold a character of `chars`. */
  function ClassCount(pw: seq<byte>, chars: seq<byte>): (m: nat)
    ensures m <= |pw|
  {
    if pw == [] then 0
    else ClassCount(pw[..|pw| - 1], chars) + (if pw[|pw| - 1] in chars then 1 else 0)
  }

  predicate NoDuplicates(s: seq<byte>)
  {
    forall j, k :: 0 <= j < k < |s| ==> s[j] != s[k]
  }

  /** The configured minimum of a class. */
  function MinOf(config: Config, c: Class): int64
  {
    match c
    case Lower => config.minLowerCase
    case Numeric => config.minNumeric
    case Special => config.minSpecial
    case Upper => config.minUpperCase
  }

  /** A class is satisfied when it has no positive minimum, or when its count
      reaches the minimum. */
  predicate ClassMet(g: Generator, pw: seq<byte>, c: Class)
  {
    MinOf(g.config, c) > 0 ==>
      SumCounts(pw, ClassSet(g.sets, c, g.config.mode.humanReadable)) >= MinOf(g.config, c) as int
  }

  predicate MeetsMinimums(g: Generator, pw: seq<byte>)
  {
    forall c: Class :: ClassMet(g, pw, c)
  }

  lemma {:induction false} ClassCountSnoc(pw: seq<byte>, chars: seq<byte>, y: byte)
    requires y !in chars
    ensures ClassCount(pw, chars + [y]) == ClassCount(pw, chars) + Occurrences(pw, y)
  {
    if pw != [] {
      ClassCountSnoc(pw[..|pw| - 1], chars, y);
    }
  }

  /** When the class's set lists no character twice, the validator's sum is
      the number of positions of `pw` holding a character of the class. */
  lemma {:induction false} SumCountsIsClassCount(pw: seq<byte>, chars: seq<byte>)
    requires NoDuplicates(chars)
    ensures SumCounts(pw, chars) == ClassCount(pw, chars)
  {
    if chars == [] {
      ClassCountEmpty(pw);
    } else {
      var p := chars[..|chars| - 1];
      var y := chars[|chars| - 1];
      assert chars == p + [y];
      SumCountsIsClassCount(pw, p);
      ClassCountSnoc(pw, p, y);
    }
  }

  lemma {:induction false} ClassCountEmpty(pw: seq<byte>)
    ensures ClassCount(pw, []) == 0
  {
    if pw != [] {
      ClassCountEmpty(pw[..|pw| - 1]);
    }
  }

  /** A class with a positive minimum fails when no character of `pw` is in
      its set. */
  lemma MissingClassFails(g: Generator, pw: seq<byte>, c: Class)
    requires MinOf(g.config, c) > 0
    requires forall k :: 0 <= k < |pw| ==> pw[k] !in ClassSet(g.sets, c, g.config.mode.humanReadable)
    ensures !MeetsMinimums(g, pw)
  {
    NoneCounted(pw, ClassSet(g.sets, c, g.config.mode.humanReadable));
    assert !ClassMet(g, pw, c);
  }

  lemma {:induction false} NoneCounted(pw: seq<byte>, chars: seq<byte>)
    requires forall k :: 0 <= k < |pw| ==> pw[k] !in chars
    ensures SumCounts(pw, chars) == 0
  {
    if chars != [] {
      NoneCounted(pw, chars[..|chars| - 1]);
      NoOccurrences(pw, chars[|chars| - 1]);
    }
  }

  lemma {:induction false} NoOccurrences(pw: seq<byte>, x: byte)
    requires forall k :: 0 <= k < |pw| ==> pw[k] != x
    ensures Occurrences(pw, x) == 0
  {
    if pw != [] {
      NoOccurrences(pw[..|pw| - 1], x);
    }
  }

  /** A minimum above the password's length can never be met by a class
      whose set lists no character twice: with such a configuration the
      retry loop of the generator never ends. */
  lemma MinimumAboveLengthFails(g: Generator, pw: seq<byte>, c: Class)
    requires NoDuplicates(ClassSet(g.sets, c, g.config.mode.humanReadable))
    requires MinOf(g.config, c) as int > |pw|
    ensures !MeetsMinimums(g, pw)
  {
    SumCountsIsClassCount(pw, ClassSet(g.sets, c, g.config.mode.humanReadable));
    assert !ClassMet(g, pw, c);
  }

  /** The occurrences of every character of `cr` in `pw`, added up one
      character at a time. */
  method CountClass(pw: seq<byte>, cr: seq<byte>) returns (m: nat)
    ensures m == SumCounts(pw, cr)
    ensures NoDuplicates(cr) ==> m == ClassCount(pw, cr) && m <= |pw|
  {
    m := 0;
    for j := 0 to |cr|
      invariant m == SumCounts(pw, cr[..j])
    {
      assert cr[..j + 1][..j] == cr[..j];
      m := m + Occurrences(pw, cr[j]);
    }
    assert cr[..|cr|] == cr;
    if NoDuplicates(cr) {
      SumCountsIsClassCount(pw, cr);
    }
  }

  /** `checkMinimumRequirements(pw)`: each class with a positive minimum is
      counted in the set variant the human-readable flag selects, and any
      count below its minimum fails the password. */
  method CheckMinimumRequirements(g: Generator, pw: seq<byte>) returns (ok: bool)
    ensures ok <==> MeetsMinimums(g, pw)
    ensures ok <==> ClassMet(g, pw, Lower) && ClassMet(g, pw, Numeric) &&
                    ClassMet(g, pw, Special) && ClassMet(g, pw, Upper)
    ensures (g.config.minLowerCase <= 0 && g.config.minNumeric <= 0 &&
             g.config.minSpecial <= 0 && g.config.minUpperCase <= 0) ==> ok
  {
    var config, human := g.config, g.config.mode.humanReadable;
    ok := true;
    if config.minLowerCase > 0 {
      var cr := if human then g.sets.alphaLowerHuman else g.sets.alphaLower;
      var m := CountClass(pw, cr);
      if (m as int) < config.minLowerCase as int {
        ok := false;
      }
    }
    assert ok <==> ClassMet(g, pw, Lower);
    if config.minNumeric > 0 {
      var cr := if human then g.sets.numericHuman else g.sets.numeric;
      var m := CountClass(pw, cr);
      if (m as int) < config.minNumeric as int {
        ok := false;
      }
    }
    assert ok <==> ClassMet(g, pw, Lower) && ClassMet(g, pw, Numeric);
    if config.minSpecial > 0 {
      var cr := if human then g.sets.specialHuman else g.sets.special;
      var m := CountClass(pw, cr);
      if (m as int) < config.minSpecial as int {
        ok := false;
      }
    }
    assert ok <==> ClassMet(g, pw, Lower) && ClassMet(g, pw, Numeric) && ClassMet(g, pw, Special);
    if config.minUpperCase > 0 {
      var cr := if human then g.sets.alphaUpperHuman else g.sets.alphaUpper;
      var m := CountClass(pw, cr);
      if (m as int) < config.minUpperCase as int {
        ok := false;
      }
    }
    AllClasses(g, pw);
  }

  /** Meeting the minimums is meeting each of the four classes'. */
  lemma AllClasses(g: Generator, pw: seq<byte>)
    ensures MeetsMinimums(g, pw) <==>
      ClassMet(g, pw, Lower) && ClassMet(g, pw, Numeric) && ClassMet(g, pw, Special) && ClassMet(g, pw, Upper)
  {
    if ClassMet(g, pw, Lower) && ClassMet(g, pw, Numeric) && ClassMet(g, pw, Special) && ClassMet(g, pw, Upper) {
      forall c: Class ensures ClassMet(g, pw, c) {
        match c
        case Lower =>
        case Numeric =>
        case Special =>
        case Upper =>
      }
    }
  }
}
