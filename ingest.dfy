/** The event parser `parse` of ingest/ingest.go: a raw command line and the
    time it ran become a HistoryEvent. It never fails. */
module Ingest {
  import opened Events
  import Utf8

  // ---------------------------------------------------------------------
  // The standard-library string operations `parse` relies on

  /** `strings.Split(s, " ")`: the pieces between single spaces; consecutive
      spaces give empty pieces and the empty string gives `[""]`. */
  function Split(s: string): (parts: seq<string>)
    ensures |parts| >= 1
    decreases |s|
  {
    if s == [] then [""]
    else
      var rest := Split(s[1..]);
      if s[0] == ' ' then [""] + rest
      else [[s[0]] + rest[0]] + rest[1..]
  }

  /** No piece of a split contains the separator. */
  lemma {:induction false} SplitPiecesHaveNoSpace(s: string)
    ensures forall i :: 0 <= i < |Split(s)| ==> ' ' !in Split(s)[i]
    decreases |s|
  {
    if s != [] {
      SplitPiecesHaveNoSpace(s[1..]);
      var rest := Split(s[1..]);
      if s[0] == ' ' {
        assert forall i :: 1 <= i < |Split(s)| ==> Split(s)[i] == rest[i - 1];
      } else {
        assert forall i :: 1 <= i < |Split(s)| ==> Split(s)[i] == rest[i];
      }
    }
  }

  /** `strings.Join(parts, " ")`, the inverse of `Split`. */
  function Join(parts: seq<string>): string
    requires |parts| >= 1
    decreases |parts|
  {
    if |parts| == 1 then parts[0] else parts[0] + " " + Join(parts[1..])
  }

  /** `strings.HasPrefix(p, "-")`. */
  predicate HasDashPrefix(p: string) {
    |p| > 0 && p[0] == '-'
  }

  /** `strings.LastIndexByte(s, c)` for an ASCII `c`: the position of the
      last `c`, or -1, counted in characters (`ExtensionOf` turns it into the
      byte offset Go returns). */
  function LastIndexByte(s: string, c: char): (r: int)
    ensures -1 <= r < |s|
    decreases |s|
  {
    if s == [] then -1
    else if s[|s| - 1] == c then |s| - 1
    else LastIndexByte(s[..|s| - 1], c)
  }

  /** The index found holds `c` and no later index does. */
  lemma {:induction false} LastIndexByteMeaning(s: string, c: char)
    ensures LastIndexByte(s, c) >= 0 ==> s[LastIndexByte(s, c)] == c
    ensures forall j :: LastIndexByte(s, c) < j < |s| ==> s[j] != c
    decreases |s|
  {
    if s != [] && s[|s| - 1] != c {
      LastIndexByteMeaning(s[..|s| - 1], c);
    }
  }

  /** `sub` occurs in `s` at index `i`. */
  predicate OccursAt(s: string, sub: string, i: int) {
    0 <= i <= |s| - |sub| && s[i..i + |sub|] == sub
  }

  /** `strings.Contains(s, sub)`. */
  function Contains(s: string, sub: string): bool
    decreases |s|
  {
    if |s| < |sub| then false
    else if s[..|sub|] == sub then true
    else Contains(s[1..], sub)
  }

  /** `Contains` holds exactly when `sub` occurs at some index. */
  lemma {:induction false} ContainsMeaning(s: string, sub: string)
    ensures Contains(s, sub) <==> exists i :: OccursAt(s, sub, i)
    decreases |s|
  {
    if |s| < |sub| {
    } else if s[..|sub|] == sub {
      assert OccursAt(s, sub, 0);
    } else {
      ContainsMeaning(s[1..], sub);
      if Contains(s, sub) {
        var i :| OccursAt(s[1..], sub, i);
        assert s[1..][i..i + |sub|] == s[i + 1..i + 1 + |sub|];
        assert OccursAt(s, sub, i + 1);
      }
      if exists i :: OccursAt(s, sub, i) {
        var i :| OccursAt(s, sub, i);
        assert i != 0;
        assert s[1..][i - 1..i - 1 + |sub|] == s[i..i + |sub|];
        assert OccursAt(s[1..], sub, i - 1);
      }
    }
  }

  // ---------------------------------------------------------------------
  // What `parse` computes, piece by piece

  /** The programs whose subcommand is recorded. */
  const SubcommandPrograms: set<string> := {"git", "npm", "yarn", "pnpm", "pip3", "pip"}

  /** The programs whose flags are recorded. */
  const FlagPrograms: set<string> := {"xcode-select", "rm", "git"}

  /** The first token that does not start with '-', or "" if there is none. */
  function FirstNonFlag(tokens: seq<string>): string
    decreases |tokens|
  {
    if tokens == [] then ""
    else if HasDashPrefix(tokens[0]) then FirstNonFlag(tokens[1..])
    else tokens[0]
  }

  /** `FirstNonFlag` is "" when every token starts with '-', and otherwise
      the first token that does not. */
  lemma {:induction false} FirstNonFlagMeaning(tokens: seq<string>)
    ensures (forall k :: 0 <= k < |tokens| ==> HasDashPrefix(tokens[k])) ==> FirstNonFlag(tokens) == ""
    ensures forall i ::
              (0 <= i < |tokens| && !HasDashPrefix(tokens[i]) && forall k :: 0 <= k < i ==> HasDashPrefix(tokens[k]))
              ==> FirstNonFlag(tokens) == tokens[i]
    decreases |tokens|
  {
    if tokens != [] && HasDashPrefix(tokens[0]) {
      FirstNonFlagMeaning(tokens[1..]);
      assert forall i :: 1 <= i < |tokens| ==> tokens[i] == tokens[1..][i - 1];
    }
  }

  /** The extension a token contributes: the text after its last '.' (the
      whole token when it has none), when that text is one or two bytes long.
      `OffsetsTest` proves this is what Go's test on byte offsets decides. */
  function ExtensionOf(p: string): Option<string> {
    var i := LastIndexByte(p, '.');
    if Utf8.OneOrTwoBytes(p[i + 1..]) then Some(p[i + 1..]) else None
  }

  /** The byte offset Go's `strings.LastIndexByte(p, ".")` returns: a '.' is
      one byte and never part of a longer UTF-8 sequence, so its offset is
      the byte length of what precedes it. */
  function DotOffset(p: string): int {
    var i := LastIndexByte(p, '.');
    if i < 0 then -1 else Utf8.ByteLen(p[..i])
  }

  /** Go's test `last > len(p)-4 && last < len(p)-1`, on byte offsets, holds
      exactly when one or two bytes follow the last '.' (or, with no '.',
      when the token itself is one or two bytes long). */
  lemma OffsetsTest(p: string)
    ensures var last, n := DotOffset(p), Utf8.ByteLen(p);
      (last > n - 4 && last < n - 1) <==> ExtensionOf(p).Some?
  {
    if LastIndexByte(p, '.') >= 0 {
      OffsetsTestDotted(p);
    } else {
      OffsetsTestDotFree(p);
    }
  }

  /** The token's contribution to the extension list, by the byte-offset test. */
  lemma ExtensionSeqByOffsets(p: string)
    ensures var last, n := DotOffset(p), Utf8.ByteLen(p);
      ExtensionSeq(p) == if last > n - 4 && last < n - 1 then [p[LastIndexByte(p, '.') + 1..]] else []
  {
    OffsetsTest(p);
  }

  /** With a '.', `len(p) - 1 - last` is the byte length of what follows it. */
  lemma OffsetsTestDotted(p: string)
    requires LastIndexByte(p, '.') >= 0
    ensures var last, n := DotOffset(p), Utf8.ByteLen(p);
      (last > n - 4 && last < n - 1) <==> ExtensionOf(p).Some?
  {
    var i := LastIndexByte(p, '.');
    LastIndexByteMeaning(p, '.');
    var pre, post := p[..i], p[i + 1..];
    assert p == pre + ['.'] + post;
    Utf8.ByteLenAround(pre, '.', post);
    var n, last, m := Utf8.ByteLen(p), Utf8.ByteLen(pre), Utf8.ByteLen(post);
    assert n == last + 1 + m;
    assert DotOffset(p) == last;
    Utf8.OneOrTwoBytesMeaning(post);
    assert ExtensionOf(p).Some? <==> 1 <= m <= 2;
  }

  /** Without one, `last` is -1 and the test bounds the token's own length. */
  lemma OffsetsTestDotFree(p: string)
    requires LastIndexByte(p, '.') < 0
    ensures var last, n := DotOffset(p), Utf8.ByteLen(p);
      (last > n - 4 && last < n - 1) <==> ExtensionOf(p).Some?
  {
    assert p[0..] == p;
    Utf8.OneOrTwoBytesMeaning(p);
  }

  /** `LastIndexByte` is -1 exactly when the byte does not occur. */
  lemma LastIndexAbsent(s: string, c: char)
    ensures LastIndexByte(s, c) == -1 <==> c !in s
  {
    var r := LastIndexByte(s, c);
    LastIndexByteMeaning(s, c);
    if c in s {
      var j :| 0 <= j < |s| && s[j] == c;
      assert r >= j;
    }
  }

  /** A contributed extension is a suffix without a '.' of one or two bytes,
      hence of one or two characters. */
  lemma ExtensionIsShortSuffix(p: string)
    requires ExtensionOf(p).Some?
    ensures var x := ExtensionOf(p).value;
      && 1 <= Utf8.ByteLen(x) <= 2 && 1 <= |x| <= 2
      && |x| <= |p| && '.' !in x && x == p[|p| - |x|..]
  {
    var i := LastIndexByte(p, '.');
    var x := p[i + 1..];
    assert ExtensionOf(p).value == x;
    Utf8.OneOrTwoBytesMeaning(x);
    NoDotAfterLast(p, i + 1);
  }

  /** Nothing after the last '.' is a '.'. */
  lemma NoDotAfterLast(p: string, i: int)
    requires LastIndexByte(p, '.') < i <= |p|
    ensures '.' !in p[i..]
  {
    LastIndexByteMeaning(p, '.');
    forall k | 0 <= k < |p| - i ensures p[i..][k] != '.' {
      assert p[i..][k] == p[i + k];
    }
  }

  /** A dot-free token counts whole when it is one or two bytes long (there
      `last` is -1). */
  lemma DotFreeExtension(p: string)
    requires '.' !in p
    ensures ExtensionOf(p) == (if 1 <= Utf8.ByteLen(p) <= 2 then Some(p) else None)
  {
    LastIndexAbsent(p, '.');
    assert p[0..] == p;
    Utf8.OneOrTwoBytesMeaning(p);
  }

  /** A dotted token contributes exactly when one or two bytes follow its
      last '.', and that '.' precedes the extension. */
  lemma DottedExtension(p: string)
    requires '.' in p
    ensures ExtensionOf(p).Some? <==> 1 <= Utf8.ByteLen(p[LastIndexByte(p, '.') + 1..]) <= 2
    ensures ExtensionOf(p).Some? ==>
      |ExtensionOf(p).value| < |p| && p[|p| - |ExtensionOf(p).value| - 1] == '.'
  {
    LastIndexByteMeaning(p, '.');
    LastIndexAbsent(p, '.');
    Utf8.OneOrTwoBytesMeaning(p[LastIndexByte(p, '.') + 1..]);
  }

  /** The extensions of all tokens, in token order, duplicates kept. */
  function Extensions(parts: seq<string>): seq<string>
    decreases |parts|
  {
    if parts == [] then []
    else
      var p := parts[|parts| - 1];
      Extensions(parts[..|parts| - 1]) + ExtensionSeq(p)
  }

  /** What one token adds to the extensions: nothing or one extension. */
  function ExtensionSeq(p: string): seq<string> {
    match ExtensionOf(p)
    case Some(x) => [x]
    case None => []
  }

  /** The tokens starting with '-', in token order. */
  function DashTokens(parts: seq<string>): seq<string>
    decreases |parts|
  {
    if parts == [] then []
    else
      var p := parts[|parts| - 1];
      DashTokens(parts[..|parts| - 1]) + (if HasDashPrefix(p) then [p] else [])
  }

  /** The event `parse(cmd, ts)` returns. */
  function ParseSpec(cmd: string, ts: Time): HistoryEvent {
    var parts := Split(cmd);
    var prog := parts[0];
    HistoryEvent(
      cmd := prog,
      at := ts,
      subCommand := if prog in SubcommandPrograms then FirstNonFlag(parts[1..]) else "",
      flags := if prog in FlagPrograms then DashTokens(parts) else [],
      fileExtensions := Extensions(parts),
      isForce := Contains(cmd, "--force"),
      isRmRf := Contains(cmd, "-rf") || Contains(cmd, "-fr"))
  }

  /** The subcommand loop of `parse`: skip tokens after the program name
      that start with '-', take the first other one. */
  method FindSubcommand(parts: seq<string>) returns (subcommand: string)
    requires |parts| >= 1
    ensures subcommand == FirstNonFlag(parts[1..])
  {
    subcommand := "";
    var i := 1;
    while i < |parts|
      invariant 1 <= i <= |parts|
      invariant FirstNonFlag(parts[1..]) == FirstNonFlag(parts[i..])
    {
      if HasDashPrefix(parts[i]) {
        assert parts[i..][1..] == parts[i + 1..];
        i := i + 1;
        continue;
      }
      subcommand := parts[i];
      break;
    }
  }

  /** The extension loop of `parse`, over every token. */
  method CollectExtensions(parts: seq<string>) returns (exts: seq<string>)
    ensures exts == Extensions(parts)
  {
    exts := [];
    var i := 0;
    while i < |parts|
      invariant 0 <= i <= |parts|
      invariant exts == Extensions(parts[..i])
    {
      var p := parts[i];
      var dot := LastIndexByte(p, '.');
      var last := DotOffset(p);
      var n: int := Utf8.ByteLen(p);
      CollectStep(parts, i, exts, dot, last, n);
      if last > n - 4 && last < n - 1 {
        exts := exts + [p[dot + 1..]];
      }
      i := i + 1;
    }
    assert parts[..i] == parts;
  }

  /** One pass of the extension loop, on the loop's own variables: the list
      grows by the suffix after the '.' exactly when Go's byte-offset test
      holds. */
  lemma CollectStep(parts: seq<string>, i: int, exts: seq<string>, dot: int, last: int, n: int)
    requires 0 <= i < |parts| && exts == Extensions(parts[..i])
    requires dot == LastIndexByte(parts[i], '.') && last == DotOffset(parts[i]) && n == Utf8.ByteLen(parts[i])
    ensures last > n - 4 && last < n - 1 ==> exts + [parts[i][dot + 1..]] == Extensions(parts[..i + 1])
    ensures !(last > n - 4 && last < n - 1) ==> exts == Extensions(parts[..i + 1])
  {
    ExtensionsStep(parts, i);
    ExtensionSeqByOffsets(parts[i]);
  }

  /** One pass of the extension loop adds the next token's contribution. */
  lemma ExtensionsStep(parts: seq<string>, i: int)
    requires 0 <= i < |parts|
    ensures Extensions(parts[..i + 1]) == Extensions(parts[..i]) + ExtensionSeq(parts[i])
  {
    assert parts[..i + 1][..i] == parts[..i];
  }

  /** The flag loop of `parse`, over every token. */
  method CollectFlags(parts: seq<string>) returns (flags: seq<string>)
    ensures flags == DashTokens(parts)
  {
    flags := [];
    var i := 0;
    while i < |parts|
      invariant 0 <= i <= |parts|
      invariant flags == DashTokens(parts[..i])
    {
      var p := parts[i];
      assert parts[..i + 1][..i] == parts[..i];
      if HasDashPrefix(p) {
        flags := flags + [p];
      }
      i := i + 1;
    }
    assert parts[..i] == parts;
  }

  /** `parse`: split on ' ', then three passes over the tokens. */
  method Parse(cmd: string, ts: Time) returns (e: HistoryEvent)
    ensures e == ParseSpec(cmd, ts)
  {
    var parts := Split(cmd);
    var prog := parts[0];

    var subcommand := "";
    if prog in SubcommandPrograms {
      subcommand := FindSubcommand(parts);
    }

    var exts := CollectExtensions(parts);

    var flags: seq<string> := [];
    if prog in FlagPrograms {
      flags := CollectFlags(parts);
    }

    e := HistoryEvent(
      cmd := prog,
      at := ts,
      subCommand := subcommand,
      flags := flags,
      fileExtensions := exts,
      isForce := Contains(cmd, "--force"),
      isRmRf := Contains(cmd, "-rf") || Contains(cmd, "-fr"));
  }

  // ---------------------------------------------------------------------
  // Properties

  /** Joining the pieces with single spaces gives back the command line. */
  lemma {:induction false} JoinSplit(s: string)
    ensures Join(Split(s)) == s
    decreases |s|
  {
    if s != [] {
      JoinSplit(s[1..]);
      if s[0] == ' ' {
        JoinSplitSpace(s);
      } else {
        JoinSplitWord(s);
      }
    }
  }

  /** A leading space adds an empty piece. */
  lemma JoinSplitSpace(s: string)
    requires s != [] && s[0] == ' ' && Join(Split(s[1..])) == s[1..]
    ensures Join(Split(s)) == s
  {
    var rest := Split(s[1..]);
    assert ([""] + rest)[1..] == rest;
    assert [s[0]] + s[1..] == s;
  }

  /** Any other first character extends the first piece. */
  lemma JoinSplitWord(s: string)
    requires s != [] && s[0] != ' ' && Join(Split(s[1..])) == s[1..]
    ensures Join(Split(s)) == s
  {
    var rest := Split(s[1..]);
    assert Split(s) == [[s[0]] + rest[0]] + rest[1..];
    JoinExtendFirst(s[0], rest);
    assert [s[0]] + s[1..] == s;
  }

  /** Prefixing the first piece with `c` prefixes the joined line with `c`. */
  lemma JoinExtendFirst(c: char, parts: seq<string>)
    requires |parts| >= 1
    ensures Join([[c] + parts[0]] + parts[1..]) == [c] + Join(parts)
  {
    if |parts| > 1 {
      JoinExtendFirstOfMany(c, parts);
    }
  }

  /** The same, when a space and further pieces follow the first. */
  lemma JoinExtendFirstOfMany(c: char, parts: seq<string>)
    requires |parts| > 1
    ensures Join([[c] + parts[0]] + parts[1..]) == [c] + Join(parts)
  {
    var q := [[c] + parts[0]] + parts[1..];
    assert q[0] == [c] + parts[0] && q[1..] == parts[1..];
    JoinMany(q);
    JoinMany(parts);
    ConcatAssoc([c], parts[0], " " + Join(parts[1..]));
  }

  /** The join of two or more pieces: the first, a space, the join of the rest. */
  lemma JoinMany(parts: seq<string>)
    requires |parts| > 1
    ensures Join(parts) == parts[0] + (" " + Join(parts[1..]))
  {
  }

  /** Concatenation of strings is associative. */
  lemma ConcatAssoc(a: string, b: string, c: string)
    ensures (a + b) + c == a + (b + c)
  {
  }


  /** A space-free word is a single piece. */
  lemma {:induction false} SplitWord(w: string)
    requires ' ' !in w
    ensures Split(w) == [w]
    decreases |w|
  {
    if w != [] {
      SplitWord(w[1..]);
      assert [w[0]] + w[1..] == w;
    }
  }

  /** A space-free word followed by a space starts a new piece. */
  lemma {:induction false} SplitWordSpace(w: string, rest: string)
    requires ' ' !in w
    ensures Split(w + " " + rest) == [w] + Split(rest)
    decreases |w|
  {
    if w == [] {
      assert w + " " + rest == [' '] + rest;
      assert (w + " " + rest)[1..] == rest;
    } else {
      SplitWordSpace(w[1..], rest);
      assert (w + " " + rest)[1..] == w[1..] + " " + rest;
      assert [w[0]] + w[1..] == w;
    }
  }

  /** Splitting the join of space-free pieces gives the pieces back. */
  lemma {:induction false} SplitJoin(parts: seq<string>)
    requires |parts| >= 1
    requires forall i :: 0 <= i < |parts| ==> ' ' !in parts[i]
    ensures Split(Join(parts)) == parts
    decreases |parts|
  {
    if |parts| == 1 {
      SplitWord(parts[0]);
    } else {
      var rest := parts[1..];
      forall i | 0 <= i < |rest| ensures ' ' !in rest[i] {
        assert rest[i] == parts[i + 1];
      }
      SplitJoin(rest);
      assert Join(parts) == parts[0] + " " + Join(rest);
      SplitWordSpace(parts[0], Join(rest));
      assert [parts[0]] + rest == parts;
    }
  }

  /** The first piece is a prefix of the join, followed by a space when more
      pieces follow. */
  lemma {:induction false} JoinStartsWithFirst(parts: seq<string>)
    requires |parts| >= 1
    ensures |parts[0]| <= |Join(parts)| && Join(parts)[..|parts[0]|] == parts[0]
    ensures |parts| == 1 <==> |Join(parts)| == |parts[0]|
    ensures |parts| > 1 ==> Join(parts)[|parts[0]|] == ' '
  {
    if |parts| > 1 {
      assert Join(parts) == parts[0] + " " + Join(parts[1..]);
    }
  }

  /** The program name is the longest space-free prefix of the command line,
      the time is the one given, and the empty line gives an empty name. */
  lemma ProgramIsFirstWord(cmd: string, ts: Time)
    ensures var e := ParseSpec(cmd, ts);
      && ' ' !in e.cmd
      && |e.cmd| <= |cmd| && cmd[..|e.cmd|] == e.cmd
      && (|e.cmd| == |cmd| || cmd[|e.cmd|] == ' ')
      && e.at == ts
  {
    JoinSplit(cmd);
    JoinStartsWithFirst(Split(cmd));
    SplitPiecesHaveNoSpace(cmd);
  }

  /** What each field of the event means: the subcommand and the flags are
      recorded only for their allow-listed programs, the flags are exactly
      the tokens that start with '-', each extension is one or two
      bytes long and has no '.', and the two booleans are raw substring tests on
      the whole line. */
  lemma ParseMeaning(cmd: string, ts: Time)
    ensures var e := ParseSpec(cmd, ts);
      && (e.cmd !in SubcommandPrograms ==> e.subCommand == "")
      && (e.subCommand != "" ==> e.subCommand in Split(cmd) && !HasDashPrefix(e.subCommand))
      && (e.cmd !in FlagPrograms ==> e.flags == [])
      && (e.cmd in FlagPrograms ==> forall x :: x in e.flags <==> x in Split(cmd) && HasDashPrefix(x))
      && (forall x :: x in e.fileExtensions ==> 1 <= Utf8.ByteLen(x) <= 2 && 1 <= |x| <= 2 && '.' !in x)
      && (e.isForce <==> exists i :: OccursAt(cmd, "--force", i))
      && (e.isRmRf <==> exists i :: OccursAt(cmd, "-rf", i) || OccursAt(cmd, "-fr", i))
  {
    var parts := Split(cmd);
    var e := ParseSpec(cmd, ts);
    assert e.subCommand != "" ==> e.subCommand in parts && !HasDashPrefix(e.subCommand) by {
      FirstNonFlagIsToken(parts[1..]);
    }
    assert e.cmd in FlagPrograms ==> forall x :: x in e.flags <==> x in parts && HasDashPrefix(x) by {
      DashTokensMeaning(parts);
    }
    assert forall x :: x in e.fileExtensions ==> 1 <= Utf8.ByteLen(x) <= 2 && 1 <= |x| <= 2 && '.' !in x by {
      ExtensionsSound(parts);
    }
    ContainsMeaning(cmd, "--force");
    ContainsMeaning(cmd, "-rf");
    ContainsMeaning(cmd, "-fr");
  }

  /** A non-empty result of `FirstNonFlag` is one of the tokens, without a '-'. */
  lemma {:induction false} FirstNonFlagIsToken(tokens: seq<string>)
    ensures FirstNonFlag(tokens) != "" ==> FirstNonFlag(tokens) in tokens && !HasDashPrefix(FirstNonFlag(tokens))
    decreases |tokens|
  {
    if tokens != [] && HasDashPrefix(tokens[0]) {
      FirstNonFlagIsToken(tokens[1..]);
    }
  }

  /** `Extensions` decides token by token. */
  lemma {:induction false} ExtensionsDistribute(a: seq<string>, b: seq<string>)
    ensures Extensions(a + b) == Extensions(a) + Extensions(b)
    decreases |b|
  {
    if b == [] {
      assert a + b == a;
    } else {
      var bi := b[..|b| - 1];
      assert (a + b)[..|a + b| - 1] == a + bi;
      assert (a + b)[|a + b| - 1] == b[|b| - 1];
      ExtensionsDistribute(a, bi);
    }
  }

  /** `DashTokens` decides token by token. */
  lemma {:induction false} DashTokensDistribute(a: seq<string>, b: seq<string>)
    ensures DashTokens(a + b) == DashTokens(a) + DashTokens(b)
    decreases |b|
  {
    if b == [] {
      assert a + b == a;
    } else {
      var bi := b[..|b| - 1];
      assert (a + b)[..|a + b| - 1] == a + bi;
      assert (a + b)[|a + b| - 1] == b[|b| - 1];
      DashTokensDistribute(a, bi);
    }
  }

  /** The recorded flags are exactly the tokens that start with '-'. */
  lemma {:induction false} DashTokensMeaning(parts: seq<string>)
    ensures forall x :: x in DashTokens(parts) <==> x in parts && HasDashPrefix(x)
    decreases |parts|
  {
    if parts != [] {
      var init := parts[..|parts| - 1];
      DashTokensMeaning(init);
      assert parts == init + [parts[|parts| - 1]];
    }
  }

  /** Every recorded extension is contributed by some token, and is one or
      two bytes (so one or two characters) long, without a '.'. */
  lemma ExtensionsSound(parts: seq<string>)
    ensures forall x :: x in Extensions(parts) ==>
      && (exists i :: 0 <= i < |parts| && ExtensionOf(parts[i]) == Some(x))
      && 1 <= Utf8.ByteLen(x) <= 2 && 1 <= |x| <= 2 && '.' !in x
  {
    forall x | x in Extensions(parts)
      ensures && (exists i :: 0 <= i < |parts| && ExtensionOf(parts[i]) == Some(x))
              && 1 <= Utf8.ByteLen(x) <= 2 && 1 <= |x| <= 2 && '.' !in x
    {
      var i := ExtensionSource(parts, x);
      ExtensionIsShortSuffix(parts[i]);
    }
  }

  /** The token an extension comes from. */
  lemma {:induction false} ExtensionSource(parts: seq<string>, x: string) returns (i: int)
    requires x in Extensions(parts)
    ensures 0 <= i < |parts| && ExtensionOf(parts[i]) == Some(x)
    decreases |parts|
  {
    var n := |parts| - 1;
    var init := parts[..n];
    if x in Extensions(init) {
      i := ExtensionSource(init, x);
      assert parts[i] == init[i];
    } else {
      i := n;
    }
  }

  lemma SplitAround(parts: seq<string>, i: int)
    requires 0 <= i < |parts|
    ensures parts == parts[..i] + [parts[i]] + parts[i + 1..]
  {
  }

  /** One more token adds its own contribution to each token pass. */
  lemma TokenPassesSnoc(parts: seq<string>, p: string)
    ensures Extensions(parts + [p]) == Extensions(parts) + ExtensionSeq(p)
    ensures DashTokens(parts + [p]) == DashTokens(parts) + (if HasDashPrefix(p) then [p] else [])
  {
    assert (parts + [p])[..|parts|] == parts;
  }

  /** Every token that has an extension contributes it. */
  lemma ExtensionsComplete(parts: seq<string>, i: int)
    requires 0 <= i < |parts| && ExtensionOf(parts[i]).Some?
    ensures ExtensionOf(parts[i]).value in Extensions(parts)
  {
    var p := parts[i];
    SplitAround(parts, i);
    ExtensionsDistribute(parts[..i] + [p], parts[i + 1..]);
    ExtensionsDistribute(parts[..i], [p]);
    TokenPassesSnoc([], p);
    assert [] + [p] == [p];
  }

  /** A token whose last '.' is at `i` contributes what follows it, when
      that is one or two bytes long. */
  lemma ExtensionAfterDot(p: string, i: int)
    requires 0 <= i < |p| && p[i] == '.' && '.' !in p[i + 1..]
    ensures ExtensionOf(p) == if 1 <= Utf8.ByteLen(p[i + 1..]) <= 2 then Some(p[i + 1..]) else None
  {
    LastDotAt(p, i);
    Utf8.OneOrTwoBytesMeaning(p[i + 1..]);
  }

  /** The index of the last '.' of a token. */
  lemma LastDotAt(p: string, i: int)
    requires 0 <= i < |p| && p[i] == '.' && '.' !in p[i + 1..]
    ensures LastIndexByte(p, '.') == i
  {
  }

  /** A string in which no run `sub[0] sub[1]` is followed by `sub[2]` does
      not contain the three-character `sub`. */
  lemma NoTriple(s: string, sub: string)
    requires |sub| == 3
    requires forall i :: 0 <= i < |s| - 2 && s[i] == sub[0] && s[i + 1] == sub[1] ==> s[i + 2] != sub[2]
    ensures !Contains(s, sub)
  {
    ContainsMeaning(s, sub);
    forall i | 0 <= i <= |s| - 3 ensures !OccursAt(s, sub, i) {
      var w := s[i..i + 3];
      assert w[0] == s[i] && w[1] == s[i + 1] && w[2] == s[i + 2];
    }
  }

}
