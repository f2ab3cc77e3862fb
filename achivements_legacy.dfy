/** The older rule set of the `achivements` package (achivements/achivements.go):
    an achievement function is a plain predicate over the whole history. */
module Achivements {
  import Events

  /** The legacy event record: the program, its time and the force boolean. */
  datatype HistoryEvent = HistoryEvent(cmd: string, at: Events.Time, isForce: bool)

  /** The three kinds of `AchivementFunc` the package builds. */
  datatype AchivementFunc =
    | TrueFunc
    | FalseFunc
    | UsedCommandFunc(cmd: string)

  /** `usedCommandFunc(cmd)(events)`: an early-return search for an event
      whose program is exactly `cmd`. */
  function UsedCommand(cmd: string, events: seq<HistoryEvent>): (r: bool)
    ensures r <==> exists i :: 0 <= i < |events| && events[i].cmd == cmd
    decreases |events|
  {
    if events == [] then false
    else if events[0].cmd == cmd then true
    else
      var r := UsedCommand(cmd, events[1..]);
      assert forall i :: 1 <= i < |events| ==> events[i] == events[1..][i - 1];
      r
  }

  /** Calling an achievement function on the history. */
  function Run(f: AchivementFunc, events: seq<HistoryEvent>): (r: bool)
    ensures f.TrueFunc? ==> r
    ensures f.FalseFunc? ==> !r
    ensures f.UsedCommandFunc? ==> (r <==> exists e :: e in events && e.cmd == f.cmd)
  {
    match f
    case TrueFunc => true
    case FalseFunc => false
    case UsedCommandFunc(cmd) => UsedCommand(cmd, events)
  }

  /** A used command stays used when more events are appended. */
  lemma {:induction false} UsedCommandMonotone(cmd: string, h: seq<HistoryEvent>, x: seq<HistoryEvent>)
    requires UsedCommand(cmd, h)
    ensures UsedCommand(cmd, h + x)
  {
    var i :| 0 <= i < |h| && h[i].cmd == cmd;
    assert (h + x)[i] == h[i];
  }

  /** Whether a command was used depends only on the events with that program. */
  lemma {:induction false} UsedCommandOfConcat(cmd: string, h: seq<HistoryEvent>, x: seq<HistoryEvent>)
    ensures UsedCommand(cmd, h + x) == (UsedCommand(cmd, h) || UsedCommand(cmd, x))
  {
    if UsedCommand(cmd, h + x) {
      var i :| 0 <= i < |h + x| && (h + x)[i].cmd == cmd;
      if i < |h| {
        assert h[i] == (h + x)[i];
      } else {
        assert x[i - |h|] == (h + x)[i];
      }
    }
    if UsedCommand(cmd, h) {
      UsedCommandMonotone(cmd, h, x);
    }
    if UsedCommand(cmd, x) {
      var i :| 0 <= i < |x| && x[i].cmd == cmd;
      assert (h + x)[|h| + i] == x[i];
    }
  }

  /** An unlocked legacy achievement stays unlocked as the history grows, and
      nothing but `trueFunc` is unlocked on the empty history. */
  lemma {:induction false} RunMonotone(f: AchivementFunc, h: seq<HistoryEvent>, x: seq<HistoryEvent>)
    ensures Run(f, h) ==> Run(f, h + x)
    ensures Run(f, []) <==> f.TrueFunc?
  {
    if f.UsedCommandFunc? && Run(f, h) {
      UsedCommandMonotone(f.cmd, h, x);
    }
  }

  datatype Achivement = Achivement(name: string, description: string, func: AchivementFunc)

  /** The package's `Achivements` list, in declaration order. */
  const Catalogue: seq<Achivement> := [
    Achivement("Name your pet", "", TrueFunc),
    Achivement("node << 2", "Use deno", UsedCommandFunc("deno")),
    Achivement("Gopher", "Use Go", UsedCommandFunc("go")),
    Achivement("Silly Snake 🐍", "Use Python 2", UsedCommandFunc("python2")),
    Achivement("Teamwork makes the dream work", "Use Git", UsedCommandFunc("git")),
    Achivement("Archivist", "Use fzf", UsedCommandFunc("fzf")),
    Achivement("Use the --force", "Use a command with --force", FalseFunc)
  ]

  /** Over any history: the first entry is always unlocked, the last never
      (even when a command used `--force`), and each "Use X" entry is
      unlocked exactly when the program X was run. */
  lemma CatalogueOutcomes(events: seq<HistoryEvent>)
    ensures |Catalogue| == 7
    ensures Run(Catalogue[0].func, events)
    ensures !Run(Catalogue[6].func, events)
    ensures forall k :: 1 <= k <= 5 ==>
      (Run(Catalogue[k].func, events) <==> exists e :: e in events && e.cmd == Catalogue[k].func.cmd)
  {
    forall k | 1 <= k <= 5
      ensures Run(Catalogue[k].func, events) <==> exists e :: e in events && e.cmd == Catalogue[k].func.cmd
    {
      assert Catalogue[k].func.UsedCommandFunc?;
    }
  }
}
