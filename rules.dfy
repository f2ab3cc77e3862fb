/** Rules: the occurrence selectors `nth` and `first`, `times`, `trueFunc`,
    a sample of the achievement catalogue and the start-up name-length log
    (achievements/achievements.go). */
module Rules {
  import opened Events
  import opened Conditions
  import opened Filters
  import Utf8

  /** A filter as the catalogue builds it: `and(cs...)` or `or(cs...)`. */
  datatype Filter = And(conds: seq<Condition>) | Or(conds: seq<Condition>)

  function Apply(f: Filter, events: seq<HistoryEvent>): seq<HistoryEvent> {
    match f
    case And(cs) => AndSpec(cs, events)
    case Or(cs) => OrSpec(cs, events)
  }

  /** Calling a filter closure on the history. */
  method RunFilter(f: Filter, events: seq<HistoryEvent>) returns (res: seq<HistoryEvent>)
    ensures res == Apply(f, events)
  {
    match f
    case And(cs) => res := ApplyAnd(cs, events);
    case Or(cs) => res := ApplyOr(cs, events);
  }

  /** The `(awarded bool, at *time.Time)` pair an achievement function returns. */
  datatype Award = Award(awarded: bool, at: Option<Time>)

  const Locked: Award := Award(false, None)

  /** An achievement function: `trueFunc` or `nth(filter, n)`. */
  datatype Rule = TrueFunc | Nth(filter: Filter, n: nat)

  /** `first(f)` is `nth(f, 0)`. */
  function First(f: Filter): Rule {
    Nth(f, 0)
  }

  /** Evaluating a rule on a history: `trueFunc` always awards at the zero
      time; `nth(f, n)` awards at the zero-based n-th filtered event. */
  function Evaluate(r: Rule, events: seq<HistoryEvent>): (a: Award)
    ensures a.awarded <==> a.at.Some?
    ensures r.TrueFunc? ==> a == Award(true, Some(ZeroTime))
    ensures r.Nth? ==> (a.awarded <==> |Apply(r.filter, events)| > r.n)
    ensures r.Nth? && a.awarded ==> a.at.value == Apply(r.filter, events)[r.n].at
  {
    match r
    case TrueFunc => Award(true, Some(ZeroTime))
    case Nth(f, n) =>
      var filtered := Apply(f, events);
      if |filtered| <= n then Locked else Award(true, Some(filtered[n].at))
  }

  /** Calling an achievement function on the history. */
  method EvaluateRule(r: Rule, events: seq<HistoryEvent>) returns (a: Award)
    ensures a == Evaluate(r, events)
  {
    match r
    case TrueFunc =>
      a := Award(true, Some(ZeroTime));
    case Nth(f, n) =>
      var filtered := RunFilter(f, events);
      if |filtered| <= n {
        a := Locked;
      } else {
        a := Award(true, Some(filtered[n].at));
      }
  }

  /** Both filters decide event by event, so a filter distributes over
      appending to the history. */
  lemma {:induction false} ApplyDistributes(f: Filter, h: seq<HistoryEvent>, x: seq<HistoryEvent>)
    ensures Apply(f, h + x) == Apply(f, h) + Apply(f, x)
  {
    match f
    case And(cs) => AndDistributes(cs, h, x);
    case Or(cs) => OrDistributes(cs, h, x);
  }

  /** Appending events never revokes an award nor moves its time. */
  lemma {:induction false} AwardNeverRevoked(r: Rule, h: seq<HistoryEvent>, x: seq<HistoryEvent>)
    requires Evaluate(r, h).awarded
    ensures Evaluate(r, h + x) == Evaluate(r, h)
  {
    if r.Nth? {
      ApplyDistributes(r.filter, h, x);
      assert Apply(r.filter, h + x)[r.n] == Apply(r.filter, h)[r.n];
    }
  }

  /** On an empty history only `trueFunc` awards. */
  lemma {:induction false} EmptyHistoryOnlyTrueFunc(r: Rule)
    ensures Evaluate(r, []).awarded <==> r.TrueFunc?
  {
    if r.Nth? {
      assert Apply(r.filter, []) == [];
    }
  }

  /** `nth(and(cs...), n)` on a history whose every event matches awards
      exactly when the history holds n + 1 events: indexing is zero-based. */
  lemma {:induction false} NthOfMatchingHistory(cs: seq<Condition>, n: nat, events: seq<HistoryEvent>)
    requires forall i :: 0 <= i < |events| ==> AllHold(cs, events[i])
    ensures Evaluate(Nth(And(cs), n), events).awarded <==> |events| >= n + 1
  {
    AndKeepsAllMatching(cs, events);
  }

  /** `first(and(cs...))` awards exactly when some event satisfies every
      condition. */
  lemma FirstOfAndAwardsOnAnyMatch(cs: seq<Condition>, events: seq<HistoryEvent>)
    ensures Evaluate(First(And(cs)), events).awarded <==> exists i :: 0 <= i < |events| && AllHold(cs, events[i])
  {
    AndEmptyIffNoMatch(cs, events);
  }

  /** `first(and(cs...))` awards at the time of the earliest event that
      satisfies every condition. */
  lemma FirstOfAndAtEarliestMatch(cs: seq<Condition>, events: seq<HistoryEvent>, i: nat)
    requires i < |events| && AllHold(cs, events[i])
    requires forall j :: 0 <= j < i ==> !AllHold(cs, events[j])
    ensures Evaluate(First(And(cs)), events) == Award(true, Some(events[i].at))
  {
    AndFirstIsEarliestMatch(cs, events, i);
  }

  // ---------------------------------------------------------------------
  // times(n)

  /** What `times(n)` does as written: it guards with `len(events) < n` and
      then reads `events[n]`, which is out of range when `len(events) == n`. */
  datatype TimesOutcome = Returned(award: Award) | IndexOutOfRange

  function TimesAsWritten(n: nat, events: seq<HistoryEvent>): (o: TimesOutcome)
    ensures o.IndexOutOfRange? <==> |events| == n
    ensures o.Returned? ==> (o.award.awarded <==> |events| > n)
  {
    if |events| < n then Returned(Locked)
    else if n < |events| then Returned(Award(true, Some(events[n].at)))
    else IndexOutOfRange
  }

  /** `times(n)` with the guard `len(events) <= n`: the award at the
      zero-based n-th event of the whole history. */
  function Times(n: nat, events: seq<HistoryEvent>): (a: Award)
    ensures a.awarded <==> |events| > n
    ensures a.awarded ==> a.at == Some(events[n].at)
  {
    if |events| <= n then Locked else Award(true, Some(events[n].at))
  }

  /** The corrected `times(n)` is `nth` over the filter that keeps everything,
      and agrees with the code as written wherever that does not fail. */
  lemma {:induction false} TimesIsNthOfEverything(n: nat, events: seq<HistoryEvent>)
    ensures Times(n, events) == Evaluate(Nth(And([]), n), events)
    ensures |events| != n ==> TimesAsWritten(n, events) == Returned(Times(n, events))
  {
    AndOfNothingIsIdentity(events);
  }

  // ---------------------------------------------------------------------
  // A sample of the catalogue

  datatype Achievement = Achievement(name: string, description: string, rule: Rule)

  /** `anyPython`. */
  const AnyPython: seq<Condition> :=
    [WithCommand("python2"), WithCommand("python3"), WithCommand("python")]

  const NameYourPet := Achievement("Name your pet", "", TrueFunc)
  const Gopher := Achievement("Gopher", "Use Go", First(And([WithCommand("go")])))
  const GoGoGadget := Achievement("Go-go-gadget!", "Use Go 50 times", Nth(And([WithCommand("go")]), 50))
  const Psuedocoder := Achievement("Psuedocoder", "Use Python", Nth(Or(AnyPython), 1))
  const Teamwork := Achievement("Teamwork makes the dream work", "Use git", First(And([WithCommand("git")])))
  const Oncaller := Achievement("Oncaller", "Make a git commit in the middle of the night",
    First(And([WithSubCommand("git", "commit"), WithHourRange(2, 5)])))
  const UseTheForce := Achievement("Use the --force", "Use a git command with --force",
    First(And([WithCommand("git"), WithIsForce])))
  const Polyglot := Achievement("Polyglot", "Add 3 files with different extensions to the git staging area",
    First(And([WithSubCommand("git", "add"), WithUniqueFileExtsMin(3)])))
  const NoBacksies := Achievement("No backsies", "Delete a directory with rm -rf",
    First(And([WithCommand("rm"), WithIsRmRf])))
  const ScrewedWhen := Achievement("You know you're screwed when", "Use xcode-select --install, for the second time",
    Nth(And([WithCommand("xcode-select"), WithFlag("--install")]), 2))
  const Caretaker := Achievement("Caretaker", "Launch Marble Zero 10 times", Nth(And([WithCommand("marblezero")]), 10))

  function SampleAchievements(): seq<Achievement> {
    [NameYourPet, Gopher, GoGoGadget, Psuedocoder, Teamwork, Oncaller, UseTheForce,
     Polyglot, NoBacksies, ScrewedWhen, Caretaker]
  }

  /** `anyPython` keeps exactly the `python2` events: an event of `python3`
      or `python` fails the first condition and is dropped. */
  lemma {:induction false} AnyPythonIsPython2Only(events: seq<HistoryEvent>)
    ensures OrSpec(AnyPython, events) == AndSpec([WithCommand("python2")], events)
    decreases |events|
  {
    if events != [] {
      var e := events[|events| - 1];
      AnyPythonIsPython2Only(events[..|events| - 1]);
      if e.cmd == "python2" {
        assert PrefixLen(AnyPython, e) == 1;
        assert Repeat(e, 1) == [e];
      } else {
        assert PrefixLen(AnyPython, e) == 0;
      }
    }
  }

  /** Hence `or` is not a union: a `python3` event matches one of the
      conditions of `anyPython` but is not emitted. */
  lemma OrIsNotUnion(e: HistoryEvent)
    requires e.cmd == "python3"
    ensures Holds(AnyPython[1], e) && OrSpec(AnyPython, [e]) == []
  {
    assert PrefixLen(AnyPython, e) == 0;
    assert OrSpec(AnyPython, [e]) == OrSpec(AnyPython, []) + [];
  }

  /** "Use Python" needs two `python2` events and nothing else counts. */
  lemma PsuedocoderNeedsTwoPython2(events: seq<HistoryEvent>)
    ensures Evaluate(Psuedocoder.rule, events).awarded
        <==> |AndSpec([WithCommand("python2")], events)| >= 2
  {
    AnyPythonIsPython2Only(events);
  }

  /** "Use Go 50 times" needs 51 uses of `go`: 50 are not enough. */
  lemma GoGoGadgetNeeds51(events: seq<HistoryEvent>)
    ensures Evaluate(GoGoGadget.rule, events).awarded <==> |AndSpec([WithCommand("go")], events)| >= 51
    ensures (forall i :: 0 <= i < |events| ==> events[i].cmd == "go") ==>
      (Evaluate(GoGoGadget.rule, events).awarded <==> |events| >= 51)
  {
    if forall i :: 0 <= i < |events| ==> events[i].cmd == "go" {
      NthOfMatchingHistory([WithCommand("go")], 50, events);
    }
  }

  /** "Use xcode-select --install, for the second time" needs a third use. */
  lemma ScrewedWhenNeedsThree(events: seq<HistoryEvent>)
    ensures Evaluate(ScrewedWhen.rule, events).awarded
        <==> |AndSpec([WithCommand("xcode-select"), WithFlag("--install")], events)| >= 3
    ensures (forall i :: 0 <= i < |events| ==> events[i].cmd == "xcode-select" && "--install" in events[i].flags) ==>
      (Evaluate(ScrewedWhen.rule, events).awarded <==> |events| >= 3)
  {
    if forall i :: 0 <= i < |events| ==> events[i].cmd == "xcode-select" && "--install" in events[i].flags {
      NthOfMatchingHistory([WithCommand("xcode-select"), WithFlag("--install")], 2, events);
    }
  }

  // ---------------------------------------------------------------------
  // The name-length check run at start-up

  const AchievementNameMaxLength: nat := 29

  /** The names the check logs, in catalogue order. */
  function LongNames(catalogue: seq<Achievement>): (names: seq<string>)
    ensures |names| <= |catalogue|
    decreases |catalogue|
  {
    if catalogue == [] then []
    else
      var a := catalogue[|catalogue| - 1];
      LongNames(catalogue[..|catalogue| - 1]) + (if Utf8.ByteLen(a.name) > AchievementNameMaxLength then [a.name] else [])
  }

  /** A name is logged exactly when some entry carries it and it is longer
      than the limit. */
  lemma {:induction false} LongNamesMeaning(catalogue: seq<Achievement>, x: string)
    ensures x in LongNames(catalogue) <==>
      Utf8.ByteLen(x) > AchievementNameMaxLength && exists i :: 0 <= i < |catalogue| && catalogue[i].name == x
    decreases |catalogue|
  {
    if catalogue != [] {
      var init := catalogue[..|catalogue| - 1];
      var a := catalogue[|catalogue| - 1];
      LongNamesMeaning(init, x);
      if exists i :: 0 <= i < |catalogue| && catalogue[i].name == x {
        var i :| 0 <= i < |catalogue| && catalogue[i].name == x;
        if i < |init| {
          assert init[i] == catalogue[i];
        }
      }
      if exists i :: 0 <= i < |init| && init[i].name == x {
        var i :| 0 <= i < |init| && init[i].name == x;
        assert catalogue[i] == init[i];
      }
    }
  }

  /** The `init` loop: it logs each over-long name and rejects nothing, so the
      catalogue is used as it is whatever it logs. */
  method LogLongNames(catalogue: seq<Achievement>) returns (logged: seq<string>)
    ensures logged == LongNames(catalogue)
  {
    logged := [];
    var i := 0;
    while i < |catalogue|
      invariant 0 <= i <= |catalogue|
      invariant logged == LongNames(catalogue[..i])
    {
      assert catalogue[..i + 1][..i] == catalogue[..i];
      if Utf8.ByteLen(catalogue[i].name) > AchievementNameMaxLength {
        logged := logged + [catalogue[i].name];
      }
      i := i + 1;
    }
    assert catalogue[..i] == catalogue;
  }

  /** The longest sampled name is exactly 29 bytes, so nothing is logged. */
  lemma SampleNamesFit()
    ensures Utf8.ByteLen(Teamwork.name) == AchievementNameMaxLength
    ensures LongNames(SampleAchievements()) == []
  {
    NameYourPetNameBytes();
    GopherNameBytes();
    GoGoGadgetNameBytes();
    PsuedocoderNameBytes();
    TeamworkNameBytes();
    OncallerNameBytes();
    UseTheForceNameBytes();
    PolyglotNameBytes();
    NoBacksiesNameBytes();
    ScrewedWhenNameBytes();
    CaretakerNameBytes();
    ElevenNamesFit(NameYourPet, Gopher, GoGoGadget, Psuedocoder, Teamwork, Oncaller, UseTheForce,
                   Polyglot, NoBacksies, ScrewedWhen, Caretaker);
  }

  /** Eleven entries whose names are within the limit log nothing. */
  lemma ElevenNamesFit(a0: Achievement, a1: Achievement, a2: Achievement, a3: Achievement,
                        a4: Achievement, a5: Achievement, a6: Achievement, a7: Achievement,
                        a8: Achievement, a9: Achievement, a10: Achievement)
    requires Utf8.ByteLen(a0.name) <= AchievementNameMaxLength && Utf8.ByteLen(a1.name) <= AchievementNameMaxLength
    requires Utf8.ByteLen(a2.name) <= AchievementNameMaxLength && Utf8.ByteLen(a3.name) <= AchievementNameMaxLength
    requires Utf8.ByteLen(a4.name) <= AchievementNameMaxLength && Utf8.ByteLen(a5.name) <= AchievementNameMaxLength
    requires Utf8.ByteLen(a6.name) <= AchievementNameMaxLength && Utf8.ByteLen(a7.name) <= AchievementNameMaxLength
    requires Utf8.ByteLen(a8.name) <= AchievementNameMaxLength && Utf8.ByteLen(a9.name) <= AchievementNameMaxLength
    requires Utf8.ByteLen(a10.name) <= AchievementNameMaxLength
    ensures LongNames([a0, a1, a2, a3, a4, a5, a6, a7, a8, a9, a10]) == []
  {
    NoLongNames([a0, a1, a2, a3, a4, a5, a6, a7, a8, a9, a10]);
  }

  /** A string of ASCII characters is as many bytes long as it is characters. */
  lemma AsciiByteLen(s: string)
    requires forall j :: 0 <= j < |s| ==> (s[j] as int) < 0x80
    ensures Utf8.ByteLen(s) == |s|
  {
    Utf8.ByteLenIsLengthIffAscii(s);
  }

  // The byte length of each sample name, one name per lemma: a single
  // literal per lemma keeps the solver's work small.

  lemma NameYourPetNameBytes() ensures Utf8.ByteLen(NameYourPet.name) == 13 { AsciiByteLen(NameYourPet.name); }
  lemma GopherNameBytes() ensures Utf8.ByteLen(Gopher.name) == 6 { AsciiByteLen(Gopher.name); }
  lemma GoGoGadgetNameBytes() ensures Utf8.ByteLen(GoGoGadget.name) == 13 { AsciiByteLen(GoGoGadget.name); }
  lemma PsuedocoderNameBytes() ensures Utf8.ByteLen(Psuedocoder.name) == 11 { AsciiByteLen(Psuedocoder.name); }
  lemma TeamworkNameBytes() ensures Utf8.ByteLen(Teamwork.name) == 29 { AsciiByteLen(Teamwork.name); }
  lemma OncallerNameBytes() ensures Utf8.ByteLen(Oncaller.name) == 8 { AsciiByteLen(Oncaller.name); }
  lemma UseTheForceNameBytes() ensures Utf8.ByteLen(UseTheForce.name) == 15 { AsciiByteLen(UseTheForce.name); }
  lemma PolyglotNameBytes() ensures Utf8.ByteLen(Polyglot.name) == 8 { AsciiByteLen(Polyglot.name); }
  lemma NoBacksiesNameBytes() ensures Utf8.ByteLen(NoBacksies.name) == 11 { AsciiByteLen(NoBacksies.name); }
  lemma ScrewedWhenNameBytes() ensures Utf8.ByteLen(ScrewedWhen.name) == 28 { AsciiByteLen(ScrewedWhen.name); }
  lemma CaretakerNameBytes() ensures Utf8.ByteLen(Caretaker.name) == 9 { AsciiByteLen(Caretaker.name); }

  /** A catalogue whose every name is within the limit logs nothing. */
  lemma {:induction false} NoLongNames(catalogue: seq<Achievement>)
    requires forall i :: 0 <= i < |catalogue| ==> Utf8.ByteLen(catalogue[i].name) <= AchievementNameMaxLength
    ensures LongNames(catalogue) == []
    decreases |catalogue|
  {
    if catalogue != [] {
      NoLongNames(catalogue[..|catalogue| - 1]);
    }
  }
}
