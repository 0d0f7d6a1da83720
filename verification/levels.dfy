/**
 Severity levels of the logger (argus.go:11-33).

 A level is a free-form string tag, exactly as Go's `type Level string`: the four
 named levels are ranked 1..4 from least to most severe, and every other tag ranks 0,
 below all of them.
 */
module Levels {

  type Level = string

  const Info: Level := "INFO"
  const Warn: Level := "WARN"
  const Error: Level := "ERROR"
  const Debug: Level := "DEBUG"

  /** The named levels, from least to most severe. */
  const Ranked: seq<Level> := [Debug, Info, Warn, Error]

  predicate IsNamed(level: Level) {
    level in Ranked
  }

  /** The rank of a level: its position in `Ranked` counted from 1, or 0 for any other tag. */
  function Severity(level: Level): (r: nat)
    ensures r <= |Ranked|
    ensures r == 0 <==> !IsNamed(level)
    ensures forall i :: 0 <= i < |Ranked| ==> (level == Ranked[i] <==> r == i + 1)
  {
    if level == Debug then 1
    else if level == Info then 2
    else if level == Warn then 3
    else if level == Error then 4
    else 0
  }

  /** The filter of Print: an entry is written unless its rank is strictly below the threshold's. */
  predicate Passes(level: Level, minLevel: Level) {
    !(Severity(level) < Severity(minLevel))
  }

  /** The ranks follow the order of `Ranked` strictly, and an unnamed tag is below every named level. */
  lemma SeverityOrder(i: int, j: int, other: Level)
    requires 0 <= i < j < |Ranked|
    requires !IsNamed(other)
    ensures Severity(Ranked[i]) < Severity(Ranked[j])
    ensures Severity(other) < Severity(Ranked[i])
  {
  }

  /** Concretely: Debug(1) < Info(2) < Warn(3) < Error(4), and anything else is 0. */
  lemma SeverityValues(other: Level)
    requires other != Debug && other != Info && other != Warn && other != Error
    ensures Severity(Debug) == 1 && Severity(Info) == 2 && Severity(Warn) == 3 && Severity(Error) == 4
    ensures Severity(other) == 0
  {
  }

  /** The filter compares ranks only: a level passes exactly the thresholds ranked at or below it. */
  lemma PassesIffRankAtLeast(level: Level, minLevel: Level)
    ensures Passes(level, minLevel) <==> Severity(minLevel) <= Severity(level)
    ensures Passes(level, level)
  {
  }

  /** With the default threshold Debug, every named level is written; an unnamed entry level is not. */
  lemma DebugThresholdPassesNamed(level: Level)
    ensures Passes(level, Debug) <==> IsNamed(level)
  {
  }

  /** An unnamed threshold ranks 0 and lets every entry through. */
  lemma UnnamedThresholdPassesAll(level: Level, minLevel: Level)
    requires !IsNamed(minLevel)
    ensures Passes(level, minLevel)
  {
  }

  /** Raising the threshold can only suppress more: whatever passes a higher threshold passes a lower one. */
  lemma PassesMonotone(level: Level, lower: Level, higher: Level)
    requires Severity(lower) <= Severity(higher)
    requires Passes(level, higher)
    ensures Passes(level, lower)
  {
  }
}
