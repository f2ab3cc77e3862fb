/** Conditions: predicates on a single event (achievements/achievements.go,
    `withCommand` ... `withExts`, and the two inline closures of the catalogue
    that read the deprecated booleans). */
module Conditions {
  import opened Events

  datatype Condition =
    | WithCommand(cmd: string)
    | WithSubCommand(cmd: string, sub: string)
    | WithFlag(flag: string)
    | WithHourRange(min: int, max: int)
    | WithUniqueFileExtsMin(min: int)
    | WithExts(exts: seq<string>)
    | WithIsForce   // `func(e) bool { return e.IsForce }`
    | WithIsRmRf    // `func(e) bool { return e.IsRmRf }`

  /** The set of distinct strings of `s` (the Go code's `map[string]struct{}`). */
  function Distinct(s: seq<string>): set<string> {
    set x | x in s
  }

  /** What each condition means for one event. */
  predicate Holds(c: Condition, e: HistoryEvent)
    ensures c.WithHourRange? && c.min > c.max ==> !Holds(c, e)
    ensures c.WithExts? && c.exts == [] ==> Holds(c, e)
    ensures c.WithUniqueFileExtsMin? && c.min <= 0 ==> Holds(c, e)
  {
    match c
    case WithCommand(cmd) => e.cmd == cmd
    case WithSubCommand(cmd, sub) => e.cmd == cmd && e.subCommand == sub
    case WithFlag(flag) => flag in e.flags
    case WithHourRange(min, max) => min <= e.at.hour <= max
    case WithUniqueFileExtsMin(min) => |Distinct(e.fileExtensions)| >= min
    case WithExts(exts) => forall x :: x in exts ==> x in e.fileExtensions
    case WithIsForce => e.isForce
    case WithIsRmRf => e.isRmRf
  }

  /** `withFlag`: a linear search of the event's flags. */
  method HasFlag(flags: seq<string>, flag: string) returns (found: bool)
    ensures found <==> flag in flags
  {
    var i := 0;
    while i < |flags|
      invariant 0 <= i <= |flags|
      invariant flag !in flags[..i]
    {
      if flags[i] == flag {
        return true;
      }
      i := i + 1;
    }
    assert flags[..i] == flags;
    return false;
  }

  /** The set the Go code builds by inserting every extension into a map. */
  method CollectExts(exts: seq<string>) returns (seen: set<string>)
    ensures seen == Distinct(exts)
  {
    seen := {};
    var i := 0;
    while i < |exts|
      invariant 0 <= i <= |exts|
      invariant seen == Distinct(exts[..i])
    {
      assert exts[..i + 1] == exts[..i] + [exts[i]];
      seen := seen + {exts[i]};
      i := i + 1;
    }
    assert exts[..i] == exts;
  }

  /** `withUniqueFileExtsMin(min)`: at least `min` distinct extensions. */
  method HasUniqueExtsMin(fileExts: seq<string>, min: int) returns (ok: bool)
    ensures ok <==> |Distinct(fileExts)| >= min
  {
    var seen := CollectExts(fileExts);
    ok := |seen| >= min;
  }

  /** `withExts(exts...)`: every wanted extension occurs, whatever the order
      or the number of times. */
  method HasAllExts(fileExts: seq<string>, wanted: seq<string>) returns (ok: bool)
    ensures ok <==> forall x :: x in wanted ==> x in fileExts
  {
    var seen := CollectExts(fileExts);
    var i := 0;
    while i < |wanted|
      invariant 0 <= i <= |wanted|
      invariant forall k :: 0 <= k < i ==> wanted[k] in fileExts
    {
      if wanted[i] !in seen {
        return false;
      }
      i := i + 1;
    }
    return true;
  }

  /** Calling a condition closure on an event. */
  method Check(c: Condition, e: HistoryEvent) returns (b: bool)
    ensures b == Holds(c, e)
  {
    match c
    case WithCommand(cmd) => b := e.cmd == cmd;
    case WithSubCommand(cmd, sub) => b := e.cmd == cmd && e.subCommand == sub;
    case WithFlag(flag) => b := HasFlag(e.flags, flag);
    case WithHourRange(min, max) => b := e.at.hour >= min && e.at.hour <= max;
    case WithUniqueFileExtsMin(min) => b := HasUniqueExtsMin(e.fileExtensions, min);
    case WithExts(exts) => b := HasAllExts(e.fileExtensions, exts);
    case WithIsForce => b := e.isForce;
    case WithIsRmRf => b := e.isRmRf;
  }
}
