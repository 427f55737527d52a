/** `GetCharRangeFromConfig`: the alphabet a configuration samples from. */
module CharRange {
  import opened Types

  /** The four character classes. */
  datatype Class = Lower | Numeric | Special | Upper

  /** The fixed order in which enabled classes are appended. */
  const CanonicalOrder: seq<Class> := [Lower, Numeric, Special, Upper]

  predicate Enabled(mode: Mode, c: Class)
  {
    match c
    case Lower => mode.lowerCase
    case Numeric => mode.numeric
    case Special => mode.special
    case Upper => mode.upperCase
  }

  /** The literal set of a class: the human-readable variant exactly when
      `human` is set. */
  function ClassSet(sets: CharSets, c: Class, human: bool): seq<byte>
  {
    match c
    case Lower => if human then sets.alphaLowerHuman else sets.alphaLower
    case Numeric => if human then sets.numericHuman else sets.numeric
    case Special => if human then sets.specialHuman else sets.special
    case Upper => if human then sets.alphaUpperHuman else sets.alphaUpper
  }

  /** The contribution of one class: its set when enabled, else nothing. */
  function Part(mode: Mode, sets: CharSets, c: Class): seq<byte>
  {
    if Enabled(mode, c) then ClassSet(sets, c, mode.humanReadable) else []
  }

  /** The sets of the enabled classes among `cs`, concatenated in order. */
  function Compose(cs: seq<Class>, mode: Mode, sets: CharSets): seq<byte>
  {
    if cs == [] then [] else Part(mode, sets, cs[0]) + Compose(cs[1..], mode, sets)
  }

  /** The alphabet of a generator. */
  function CharRangeOf(g: Generator): seq<byte>
  {
    Compose(CanonicalOrder, g.config.mode, g.sets)
  }

  /** A character is in the composed alphabet exactly when it belongs to the
      set of an enabled class. */
  lemma {:induction false} ComposeMembers(cs: seq<Class>, mode: Mode, sets: CharSets, x: byte)
    ensures x in Compose(cs, mode, sets) <==>
      exists k :: 0 <= k < |cs| && Enabled(mode, cs[k]) && x in ClassSet(sets, cs[k], mode.humanReadable)
  {
    if cs != [] {
      ComposeMembers(cs[1..], mode, sets, x);
      if x in Compose(cs, mode, sets) && !(Enabled(mode, cs[0]) && x in ClassSet(sets, cs[0], mode.humanReadable)) {
        var k :| 0 <= k < |cs[1..]| && Enabled(mode, cs[1..][k]) && x in ClassSet(sets, cs[1..][k], mode.humanReadable);
        assert cs[k + 1] == cs[1..][k];
      }
      if exists k :: 0 <= k < |cs| && Enabled(mode, cs[k]) && x in ClassSet(sets, cs[k], mode.humanReadable) {
        var k :| 0 <= k < |cs| && Enabled(mode, cs[k]) && x in ClassSet(sets, cs[k], mode.humanReadable);
        if k > 0 {
          assert cs[1..][k - 1] == cs[k];
        }
      }
    }
  }

  /** The composed alphabet's length is the sum of the lengths of the
      enabled classes' sets, so it is at most the sum over all classes. */
  function EnabledLength(cs: seq<Class>, mode: Mode, sets: CharSets): nat
  {
    if cs == [] then 0
    else (if Enabled(mode, cs[0]) then |ClassSet(sets, cs[0], mode.humanReadable)| else 0)
         + EnabledLength(cs[1..], mode, sets)
  }

  function TotalLength(cs: seq<Class>, sets: CharSets, human: bool): nat
  {
    if cs == [] then 0 else |ClassSet(sets, cs[0], human)| + TotalLength(cs[1..], sets, human)
  }

  lemma {:induction false} ComposeLength(cs: seq<Class>, mode: Mode, sets: CharSets)
    ensures |Compose(cs, mode, sets)| == EnabledLength(cs, mode, sets)
    ensures |Compose(cs, mode, sets)| <= TotalLength(cs, sets, mode.humanReadable)
  {
    if cs != [] {
      ComposeLength(cs[1..], mode, sets);
    }
  }

  /** With no class enabled the alphabet is empty. */
  lemma {:induction false} ComposeNoneEnabled(cs: seq<Class>, mode: Mode, sets: CharSets)
    requires forall k :: 0 <= k < |cs| ==> !Enabled(mode, cs[k])
    ensures Compose(cs, mode, sets) == []
  {
    if cs != [] {
      assert forall k :: 0 <= k < |cs[1..]| ==> cs[1..][k] == cs[k + 1];
      ComposeNoneEnabled(cs[1..], mode, sets);
    }
  }

  /** The composed alphabet written out for the four classes. */
  lemma ComposeUnrolled(mode: Mode, sets: CharSets)
    ensures Compose(CanonicalOrder, mode, sets) ==
      Part(mode, sets, Lower) + Part(mode, sets, Numeric) + Part(mode, sets, Special) + Part(mode, sets, Upper)
  {
    var o := CanonicalOrder;
    assert o[1..] == [Numeric, Special, Upper];
    assert o[1..][1..] == [Special, Upper];
    assert o[1..][1..][1..] == [Upper];
    assert Compose([Upper], mode, sets) == Part(mode, sets, Upper) + Compose([], mode, sets);
    assert Compose([Special, Upper], mode, sets) == Part(mode, sets, Special) + Compose([Upper], mode, sets);
    assert Compose([Numeric, Special, Upper], mode, sets) ==
      Part(mode, sets, Numeric) + Compose([Special, Upper], mode, sets);
  }

  /** A character is in a generator's alphabet exactly when it is in the set
      of one of the enabled classes. */
  lemma CharRangeMembers(g: Generator, x: byte)
    ensures x in CharRangeOf(g) <==>
      exists c: Class :: Enabled(g.config.mode, c) && x in ClassSet(g.sets, c, g.config.mode.humanReadable)
  {
    ComposeMembers(CanonicalOrder, g.config.mode, g.sets, x);
    var e := exists c: Class :: Enabled(g.config.mode, c) && x in ClassSet(g.sets, c, g.config.mode.humanReadable);
    if e {
      var c: Class :| Enabled(g.config.mode, c) && x in ClassSet(g.sets, c, g.config.mode.humanReadable);
      var k := match c case Lower => 0 case Numeric => 1 case Special => 2 case Upper => 3;
      assert CanonicalOrder[k] == c;
    }
  }

  /** `GetCharRangeFromConfig()`: appends the set of each enabled class, in
      the order lower, numeric, special, upper. */
  method GetCharRangeFromConfig(g: Generator) returns (cr: seq<byte>)
    ensures cr == CharRangeOf(g)
    ensures (!g.config.mode.lowerCase && !g.config.mode.numeric && !g.config.mode.special &&
             !g.config.mode.upperCase) ==> cr == []
  {
    var mode, sets := g.config.mode, g.sets;
    cr := [];
    if mode.lowerCase {
      if mode.humanReadable {
        cr := cr + sets.alphaLowerHuman;
      } else {
        cr := cr + sets.alphaLower;
      }
    }
    assert cr == Part(mode, sets, Lower);
    if mode.numeric {
      if mode.humanReadable {
        cr := cr + sets.numericHuman;
      } else {
        cr := cr + sets.numeric;
      }
    }
    assert cr == Part(mode, sets, Lower) + Part(mode, sets, Numeric);
    if mode.special {
      if mode.humanReadable {
        cr := cr + sets.specialHuman;
      } else {
        cr := cr + sets.special;
      }
    }
    assert cr == Part(mode, sets, Lower) + Part(mode, sets, Numeric) + Part(mode, sets, Special);
    if mode.upperCase {
      if mode.humanReadable {
        cr := cr + sets.alphaUpperHuman;
      } else {
        cr := cr + sets.alphaUpper;
      }
    }
    ComposeUnrolled(mode, sets);
  }
}
