/** The cases of ingest/ingest_test.go and other concrete inputs of `parse`,
    as lemmas about the model. */
module IngestExamples {
  import opened Events
  import opened Ingest
  import Utf8

  /** With two consecutive spaces the token after the program name is empty
      and does not start with '-', so it becomes the (empty) subcommand. */
  lemma DoubleSpaceGivesEmptySubcommand(ts: Time)
    ensures ParseSpec("git  commit", ts).subCommand == ""
  {
    var parts := ["git", "", "commit"];
    assert Join(parts) == "git  commit";
    SplitJoin(parts);
    assert parts[1..][0] == "";
  }

  /** The empty command line is accepted and gives an empty event. */
  lemma EmptyCommandLine(ts: Time)
    ensures ParseSpec("", ts) == HistoryEvent("", ts, "", [], [], false, false)
  {
    assert Split("") == [""];
    assert ExtensionOf("") == None;
    assert [""][..0] == [];
    assert Extensions([""]) == [];
  }

  /** Only 1- and 2-byte suffixes count; a short dot-free token counts whole. */
  lemma ExtensionExamples()
    ensures ExtensionOf("foo.txt") == None
    ensures ExtensionOf("what.s") == Some("s")
    ensures ExtensionOf("hello.") == None
    ensures ExtensionOf(".DS_Store") == None
    ensures ExtensionOf("go") == Some("go")
    ensures ExtensionOf("-l") == Some("-l")
  {
    FooTxt();
    WhatS();
    HelloDot();
    DsStore();
    Go();
    DashL();
  }

  /** Lengths are UTF-8 bytes: the 4-byte snake and the 4-byte `éé` are too
      long, while the 2-byte `é` and `ñ` count. */
  lemma MultiByteExtensions()
    ensures ExtensionOf("🐍") == None
    ensures ExtensionOf("a.éé") == None
    ensures ExtensionOf("é") == Some("é")
    ensures ExtensionOf("x.ñ") == Some("ñ")
  {
    Snake();
    TwoAccents();
    OneAccent();
    DotEnye();
  }

  // One token each: a single literal per lemma keeps the solver's work small.

  lemma FooTxt() ensures ExtensionOf("foo.txt") == None { ExtensionAfterDot("foo.txt", 3); }
  lemma WhatS() ensures ExtensionOf("what.s") == Some("s") { ExtensionAfterDot("what.s", 4); }
  lemma HelloDot() ensures ExtensionOf("hello.") == None { ExtensionAfterDot("hello.", 5); }
  lemma DsStore() ensures ExtensionOf(".DS_Store") == None { ExtensionAfterDot(".DS_Store", 0); }
  lemma Go() ensures ExtensionOf("go") == Some("go") { DotFreeExtension("go"); }
  lemma DashL() ensures ExtensionOf("-l") == Some("-l") { DotFreeExtension("-l"); }
  lemma Snake() ensures ExtensionOf("🐍") == None { DotFreeExtension("🐍"); }
  lemma TwoAccents() ensures ExtensionOf("a.éé") == None { ExtensionAfterDot("a.éé", 1); }
  lemma OneAccent() ensures ExtensionOf("é") == Some("é") { DotFreeExtension("é"); }
  lemma DotEnye() ensures ExtensionOf("x.ñ") == Some("ñ") { ExtensionAfterDot("x.ñ", 1); }
  lemma FooGo() ensures ExtensionOf("foo.go") == Some("go") { ExtensionAfterDot("foo.go", 3); }
  lemma BarGo() ensures ExtensionOf("bar.go") == Some("go") { ExtensionAfterDot("bar.go", 3); }
  lemma YesPy() ensures ExtensionOf("yes.py") == Some("py") { ExtensionAfterDot("yes.py", 3); }

  /** The second case of the package's test: besides the subcommand and the
      force boolean, `--force` is recorded as a flag, since `git` is a flag
      program (the test expects no flags; the code records them). */
  lemma PushForce(ts: Time)
    ensures var e := ParseSpec("git push --force", ts);
      && e.cmd == "git" && e.subCommand == "push"
      && e.flags == ["--force"] && e.fileExtensions == []
      && e.isForce && !e.isRmRf
  {
    PushForceSplit();
    PushForceSubcommand();
    PushForceDash();
    PushForceExts();
    PushForceHasForce();
    PushForceHasNoRf();
    PushForceHasNoFr();
    ParseOfFacts("git push --force", ts, ["git", "push", "--force"], "push", ["--force"], []);
  }

  /** The event of a line whose program takes a subcommand and records flags,
      assembled from what is known of each of its fields. */
  lemma ParseOfFacts(cmd: string, ts: Time, parts: seq<string>,
                     sub: string, flags: seq<string>, exts: seq<string>)
    requires Split(cmd) == parts && parts[0] in SubcommandPrograms && parts[0] in FlagPrograms
    requires FirstNonFlag(parts[1..]) == sub && DashTokens(parts) == flags && Extensions(parts) == exts
    ensures ParseSpec(cmd, ts) == HistoryEvent(parts[0], ts, sub, flags, exts, Contains(cmd, "--force"),
                                               Contains(cmd, "-rf") || Contains(cmd, "-fr"))
  {
  }

  /** The tokens of the line. */
  lemma PushForceSplit()
    ensures Split("git push --force") == ["git", "push", "--force"]
  {
    SplitOfWords(["git", "push", "--force"], "git push --force");
  }

  /** The first token after `git` that is not a flag. */
  lemma PushForceSubcommand()
    ensures FirstNonFlag(["git", "push", "--force"][1..]) == "push"
  {
    assert ["git", "push", "--force"][1..][0] == "push";
  }

  /** `--force` occurs in the line, so the force boolean is set. */
  lemma PushForceHasForce()
    ensures Contains("git push --force", "--force")
  {
    assert OccursAt("git push --force", "--force", 9);
  }

  /** No `-r` occurs in the line, so `-rf` does not. */
  lemma PushForceHasNoRf()
    ensures !Contains("git push --force", "-rf")
  {
    NoTriple("git push --force", "-rf");
  }

  /** The only `-f` of the line is followed by `o`, so `-fr` does not occur. */
  lemma PushForceHasNoFr()
    ensures !Contains("git push --force", "-fr")
  {
    NoTriple("git push --force", "-fr");
  }

  lemma SplitOfWords(parts: seq<string>, cmd: string)
    requires |parts| >= 1 && forall i :: 0 <= i < |parts| ==> ' ' !in parts[i]
    requires Join(parts) == cmd
    ensures Split(cmd) == parts
  {
    SplitJoin(parts);
  }

  /** A token longer than two characters without a '.' has no extension. */
  lemma NoExtension(p: string)
    requires '.' !in p && |p| > 2
    ensures ExtensionSeq(p) == []
  {
    DotFreeExtension(p);
    Utf8.ByteLenBounds(p);
  }

  lemma ExtensionsOfOne(a: string)
    ensures Extensions([a]) == ExtensionSeq(a)
  {
    assert [a][..0] == [];
  }

  lemma DashTokensOfOne(a: string)
    ensures DashTokens([a]) == DashSeq(a)
  {
    assert [a][..0] == [];
  }

  /** The extension pass over a three-token line. */
  lemma ThreeTokenExtensions(a: string, b: string, c: string, ra: seq<string>, rb: seq<string>, rc: seq<string>)
    requires ExtensionSeq(a) == ra && ExtensionSeq(b) == rb && ExtensionSeq(c) == rc
    ensures Extensions([a, b, c]) == ra + rb + rc
  {
    assert [a] + [b] + [c] == [a, b, c];
    ExtensionsOfOne(a);
    ExtensionsOfOne(b);
    ExtensionsOfOne(c);
    ExtensionsOfThree([a], [b], [c], ra, rb, rc);
  }

  /** The flag pass over a three-token line. */
  lemma ThreeTokenDashes(a: string, b: string, c: string)
    ensures DashTokens([a, b, c]) == DashSeq(a) + DashSeq(b) + DashSeq(c)
  {
    assert [a] + [b] + [c] == [a, b, c];
    DashTokensOfOne(a);
    DashTokensOfOne(b);
    DashTokensOfOne(c);
    DashTokensDistribute([a] + [b], [c]);
    DashTokensDistribute([a], [b]);
  }

  function DashSeq(p: string): seq<string> {
    if HasDashPrefix(p) then [p] else []
  }

  /** Only `--force` starts with '-'. */
  lemma PushForceDash()
    ensures DashTokens(["git", "push", "--force"]) == ["--force"]
  {
    ThreeTokenDashes("git", "push", "--force");
    assert !HasDashPrefix("git") && !HasDashPrefix("push") && HasDashPrefix("--force");
  }

  /** No token of the line has an extension. */
  lemma PushForceExts()
    ensures Extensions(["git", "push", "--force"]) == []
  {
    var parts := ["git", "push", "--force"];
    forall i | 0 <= i < |parts| ensures '.' !in parts[i] && |parts[i]| > 2 {
    }
    NoExtensions(parts);
  }

  /** Tokens longer than two characters without a '.' contribute nothing. */
  lemma {:induction false} NoExtensions(parts: seq<string>)
    requires forall i :: 0 <= i < |parts| ==> '.' !in parts[i] && |parts[i]| > 2
    ensures Extensions(parts) == []
    decreases |parts|
  {
    if parts != [] {
      NoExtensions(parts[..|parts| - 1]);
      NoExtension(parts[|parts| - 1]);
    }
  }

  /** The deprecated rm -rf test is a raw substring test: `--from` sets it. */
  lemma FromLooksLikeRmRf(ts: Time)
    ensures ParseSpec("ls --from", ts).isRmRf
  {
    assert OccursAt("ls --from", "-fr", 4);
  }

  lemma ExtensionsOfThree(p1: seq<string>, p2: seq<string>, p3: seq<string>,
                           r1: seq<string>, r2: seq<string>, r3: seq<string>)
    requires Extensions(p1) == r1 && Extensions(p2) == r2 && Extensions(p3) == r3
    ensures Extensions(p1 + p2 + p3) == r1 + r2 + r3
  {
    ExtensionsDistribute(p1 + p2, p3);
    ExtensionsDistribute(p1, p2);
  }

  /** Nine tokens, read as three groups of three. */
  lemma NineTokenGroups(a: string, b: string, c: string, d: string, e: string, f: string,
                        g: string, h: string, k: string)
    ensures Extensions([a, b, c, d, e, f, g, h, k])
      == Extensions([a, b, c]) + Extensions([d, e, f]) + Extensions([g, h, k])
  {
    assert [a, b, c] + [d, e, f] + [g, h, k] == [a, b, c, d, e, f, g, h, k];
    ExtensionsOfThree([a, b, c], [d, e, f], [g, h, k],
                      Extensions([a, b, c]), Extensions([d, e, f]), Extensions([g, h, k]));
  }

  /** Tokens none of which starts with '-' give no flags. */
  lemma {:induction false} NoDashTokens(parts: seq<string>)
    requires forall i :: 0 <= i < |parts| ==> !HasDashPrefix(parts[i])
    ensures DashTokens(parts) == []
    decreases |parts|
  {
    if parts != [] {
      NoDashTokens(parts[..|parts| - 1]);
    }
  }

  /** The first case of the package's test, on the tokens of its line
      `git add foo.go bar.go yes.py lalalalalalalallaa .DS_Store hello. what.s`:
      the extensions are those of the four short suffixes, in token order
      and with the duplicate kept. */
  lemma AddFilesExtensions()
    ensures Extensions(["git", "add", "foo.go", "bar.go", "yes.py", "lalalalalalalallaa", ".DS_Store", "hello.", "what.s"])
      == ["go", "go", "py", "s"]
  {
    AddFilesFirstThree();
    AddFilesMiddleThree();
    AddFilesLastThree();
    NineTokenExtensions("git", "add", "foo.go", "bar.go", "yes.py", "lalalalalalalallaa", ".DS_Store", "hello.", "what.s",
                        "go", "py", "s");
  }

  /** Nine tokens whose groups of three contribute `[x]`, `[x, y]` and `[z]`. */
  lemma NineTokenExtensions(a: string, b: string, c: string, d: string, e: string, f: string,
                            g: string, h: string, k: string, x: string, y: string, z: string)
    requires Extensions([a, b, c]) == [x] && Extensions([d, e, f]) == [x, y] && Extensions([g, h, k]) == [z]
    ensures Extensions([a, b, c, d, e, f, g, h, k]) == [x, x, y, z]
  {
    NineTokenGroups(a, b, c, d, e, f, g, h, k);
  }

  lemma AddFilesFirstThree()
    ensures Extensions(["git", "add", "foo.go"]) == ["go"]
  {
    NoExtension("git");
    NoExtension("add");
    FooGo();
    ThreeTokenExtensions("git", "add", "foo.go", [], [], ["go"]);
  }

  lemma AddFilesMiddleThree()
    ensures Extensions(["bar.go", "yes.py", "lalalalalalalallaa"]) == ["go", "py"]
  {
    BarGo();
    YesPy();
    NoExtension("lalalalalalalallaa");
    ThreeTokenExtensions("bar.go", "yes.py", "lalalalalalalallaa", ["go"], ["py"], []);
  }

  lemma AddFilesLastThree()
    ensures Extensions([".DS_Store", "hello.", "what.s"]) == ["s"]
  {
    DsStore();
    HelloDot();
    WhatS();
    ThreeTokenExtensions(".DS_Store", "hello.", "what.s", [], [], ["s"]);
  }

  /** On the same tokens the subcommand is `add` and there are no flags. */
  lemma AddFilesSubcommandAndFlags()
    ensures var parts := ["git", "add", "foo.go", "bar.go", "yes.py", "lalalalalalalallaa", ".DS_Store", "hello.", "what.s"];
      DashTokens(parts) == [] && FirstNonFlag(parts[1..]) == "add"
  {
    var parts := ["git", "add", "foo.go", "bar.go", "yes.py", "lalalalalalalallaa", ".DS_Store", "hello.", "what.s"];
    NoDashTokens(parts);
    assert parts[1..][0] == "add";
  }
}
