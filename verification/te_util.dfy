/** String helpers of the test engine: separator fixing for the current
    OS, the key-modifier prefix ("Ctrl+Shift+") and the command-line
    splitter used by the command-line front end.

    C strings are modelled by their characters before the terminating NUL. */
module TeUtil {

  // ---------------------------------------------------------------------
  // ImPathFixSeparatorsForCurrentOS
  // ---------------------------------------------------------------------

  /** The separator of the platform: '\' on Windows, '/' elsewhere. */
  function NativeSeparator(windows: bool): char {
    if windows then '\\' else '/'
  }

  /** The separator that gets replaced: the other one. */
  function ForeignSeparator(windows: bool): char {
    if windows then '/' else '\\'
  }

  /** The buffer after the rewrite: every foreign separator becomes the
      native one, every other character is kept. */
  function FixSeparators(s: string, windows: bool): (r: string)
    ensures |r| == |s|
    ensures forall i :: 0 <= i < |s| ==>
      r[i] == (if s[i] == ForeignSeparator(windows) then NativeSeparator(windows) else s[i])
    decreases |s|
  {
    if |s| == 0 then []
    else
      var c := if s[0] == ForeignSeparator(windows) then NativeSeparator(windows) else s[0];
      [c] + FixSeparators(s[1..], windows)
  }

  /** The in-place loop of the source over the characters of the buffer,
      up to its terminator, so the characters given contain no NUL. */
  method FixSeparatorsInPlace(buf: string, windows: bool) returns (out: string)
    requires forall i :: 0 <= i < |buf| ==> buf[i] != '\0'
    ensures out == FixSeparators(buf, windows)
  {
    out := buf;
    var i := 0;
    while i < |out|
      invariant 0 <= i <= |out| == |buf|
      invariant forall k :: 0 <= k < i ==> out[k] == FixSeparators(buf, windows)[k]
      invariant forall k :: i <= k < |out| ==> out[k] == buf[k]
    {
      if out[i] == ForeignSeparator(windows) {
        out := out[i := NativeSeparator(windows)];
      }
      i := i + 1;
    }
  }

  /** After the rewrite no foreign separator is left, and the characters
      that were neither separator are where they were. */
  lemma FixSeparatorsRemovesForeign(s: string, windows: bool)
    ensures forall i :: 0 <= i < |s| ==> FixSeparators(s, windows)[i] != ForeignSeparator(windows)
    ensures forall i :: 0 <= i < |s| && s[i] != ForeignSeparator(windows) ==> FixSeparators(s, windows)[i] == s[i]
    ensures forall i :: 0 <= i < |s| && s[i] == ForeignSeparator(windows) ==> FixSeparators(s, windows)[i] == NativeSeparator(windows)
  {
  }

  /** Fixing twice is fixing once. */
  lemma FixSeparatorsIdempotent(s: string, windows: bool)
    ensures FixSeparators(FixSeparators(s, windows), windows) == FixSeparators(s, windows)
  {
    var once := FixSeparators(s, windows);
    FixSeparatorsRemovesForeign(s, windows);
    assert forall i :: 0 <= i < |once| ==> FixSeparators(once, windows)[i] == once[i];
  }

  // ---------------------------------------------------------------------
  // GetImGuiKeyModsPrefixStr
  // ---------------------------------------------------------------------

  /** Key modifier flags, with the bit values of Dear ImGui's
      ImGuiKeyModFlags_ (imgui.h is not part of this model). */
  const MOD_CTRL: bv32 := 1
  const MOD_SHIFT: bv32 := 2
  const MOD_ALT: bv32 := 4
  const MOD_SUPER: bv32 := 8
  /** All four modifier bits. */
  const MOD_ALL: bv32 := 15

  /** `tok` when `bit` is set in `flags`, the empty string otherwise. */
  function TokenIf(flags: bv32, bit: bv32, tok: string): string {
    if flags & bit != 0 then tok else ""
  }

  /** The full prefix: empty for no flags, otherwise one token per set
      modifier, always in the order Ctrl, Alt, Shift, Super. */
  function ModsPrefix(flags: bv32): string {
    if flags == 0 then "" else ModTokens(flags)
  }

  /** One token per set modifier, in the order Ctrl, Alt, Shift, Super. */
  function ModTokens(flags: bv32): string {
    TokenIf(flags, MOD_CTRL, "Ctrl+") + (TokenIf(flags, MOD_ALT, "Alt+")
    + (TokenIf(flags, MOD_SHIFT, "Shift+") + TokenIf(flags, MOD_SUPER, "Super+")))
  }

  /** What lands in `out_buf`: the prefix truncated to `bufSize - 1`
      characters, as Dear ImGui's ImFormatString truncates. The source
      writes `out_buf[0]` in every case, so the buffer holds at least one
      byte. */
  function GetImGuiKeyModsPrefixStr(flags: bv32, bufSize: nat): (r: string)
    requires bufSize >= 1
    ensures |r| < bufSize && |r| <= |ModsPrefix(flags)|
    ensures r == ModsPrefix(flags)[..|r|]
    ensures |ModsPrefix(flags)| < bufSize ==> r == ModsPrefix(flags)
    ensures |r| == if |ModsPrefix(flags)| < bufSize then |ModsPrefix(flags)| else bufSize - 1
  {
    var p := ModsPrefix(flags);
    if |p| <= bufSize - 1 then p else p[..bufSize - 1]
  }

  /** The prefix is empty exactly when none of the four modifier bits is
      set, flags 0 included. */
  lemma ModsPrefixEmpty(f: bv32)
    ensures ModsPrefix(f) == "" <==> f & MOD_ALL == 0
  {
    if f & MOD_ALL != 0 {
      assert f & MOD_CTRL != 0 || f & MOD_ALT != 0 || f & MOD_SHIFT != 0 || f & MOD_SUPER != 0;
    }
  }

  /** Removes `tok` from the front of `s` when it is there, reporting
      `bit` for it. */
  function StripToken(s: string, tok: string, bit: bv32): (bv32, string) {
    if |tok| <= |s| && s[..|tok|] == tok then (bit, s[|tok|..]) else (0, s)
  }

  /** Reads a modifier prefix back into flags, expecting the tokens in the
      order the source writes them. */
  function ParseModsPrefix(s: string): bv32 {
    var (c, s1) := StripToken(s, "Ctrl+", MOD_CTRL);
    var (a, s2) := StripToken(s1, "Alt+", MOD_ALT);
    var (h, s3) := StripToken(s2, "Shift+", MOD_SHIFT);
    var (u, _) := StripToken(s3, "Super+", MOD_SUPER);
    c | a | h | u
  }

  lemma StripPresent(tok: string, rest: string, bit: bv32)
    ensures StripToken(tok + rest, tok, bit) == (bit, rest)
  {
    assert (tok + rest)[..|tok|] == tok;
    assert (tok + rest)[|tok|..] == rest;
  }

  lemma StripAbsent(s: string, tok: string, bit: bv32)
    requires |tok| > 1
    requires |s| == 0 || s[0] != tok[0] || (|s| > 1 && s[1] != tok[1])
    ensures StripToken(s, tok, bit) == (0, s)
  {
    if |tok| <= |s| && |s| > 0 {
      assert s[..|tok|][0] == s[0];
      assert s[..|tok|][1] == s[1];
    }
  }

  /** Reading the tail of the prefix after the Ctrl token. */
  lemma ParseAfterCtrl(f: bv32)
    ensures
      var s := TokenIf(f, MOD_ALT, "Alt+") + (TokenIf(f, MOD_SHIFT, "Shift+") + TokenIf(f, MOD_SUPER, "Super+"));
      StripToken(s, "Ctrl+", MOD_CTRL) == (0, s)
  {
    var s := TokenIf(f, MOD_ALT, "Alt+") + (TokenIf(f, MOD_SHIFT, "Shift+") + TokenIf(f, MOD_SUPER, "Super+"));
    if |s| > 0 {
      assert s[0] == 'A' || s[0] == 'S';
    }
    StripAbsent(s, "Ctrl+", MOD_CTRL);
  }

  lemma ParseAfterAlt(f: bv32)
    ensures
      var s := TokenIf(f, MOD_SHIFT, "Shift+") + TokenIf(f, MOD_SUPER, "Super+");
      StripToken(s, "Alt+", MOD_ALT) == (0, s)
  {
    var s := TokenIf(f, MOD_SHIFT, "Shift+") + TokenIf(f, MOD_SUPER, "Super+");
    if |s| > 0 {
      assert s[0] == 'S';
    }
    StripAbsent(s, "Alt+", MOD_ALT);
  }

  lemma ParseAfterShift(f: bv32)
    ensures
      var s := TokenIf(f, MOD_SUPER, "Super+");
      StripToken(s, "Shift+", MOD_SHIFT) == (0, s)
  {
    var s := TokenIf(f, MOD_SUPER, "Super+");
    if |s| > 0 {
      assert s[1] == 'u';
    }
    StripAbsent(s, "Shift+", MOD_SHIFT);
  }

  /** Stripping one optional token from `TokenIf(f, bit, tok) + rest`
      yields the flag bit (or 0) and `rest`, provided `rest` does not
      itself start with `tok`. */
  lemma StripOptional(f: bv32, bit: bv32, tok: string, rest: string)
    requires StripToken(rest, tok, bit) == (0, rest)
    ensures StripToken(TokenIf(f, bit, tok) + rest, tok, bit)
         == (if f & bit != 0 then bit else 0, rest)
  {
    if f & bit != 0 {
      StripPresent(tok, rest, bit);
    } else {
      assert TokenIf(f, bit, tok) + rest == rest;
    }
  }

  /** The four bits, each read back from its own token. */
  lemma CombineBits(f: bv32)
    ensures (if f & MOD_CTRL != 0 then MOD_CTRL else 0) | (if f & MOD_ALT != 0 then MOD_ALT else 0)
          | (if f & MOD_SHIFT != 0 then MOD_SHIFT else 0) | (if f & MOD_SUPER != 0 then MOD_SUPER else 0)
         == f & MOD_ALL
  {
  }

  /** Reading the tokens back gives the four modifier bits. */
  lemma ParseModTokens(f: bv32)
    ensures ParseModsPrefix(ModTokens(f)) == f & MOD_ALL
  {
    var tSuper := TokenIf(f, MOD_SUPER, "Super+");
    var tShift := TokenIf(f, MOD_SHIFT, "Shift+") + tSuper;
    var tAlt := TokenIf(f, MOD_ALT, "Alt+") + tShift;
    ParseAfterCtrl(f);
    ParseAfterAlt(f);
    ParseAfterShift(f);
    StripAbsent("", "Super+", MOD_SUPER);
    StripOptional(f, MOD_CTRL, "Ctrl+", tAlt);
    StripOptional(f, MOD_ALT, "Alt+", tShift);
    StripOptional(f, MOD_SHIFT, "Shift+", tSuper);
    StripOptional(f, MOD_SUPER, "Super+", "");
    assert tSuper + "" == tSuper;
    CombineBits(f);
  }

  /** The prefix determines the modifier bits: reading it back gives the
      four modifier bits of the flags, and nothing else. */
  lemma ModsPrefixRoundTrip(f: bv32)
    ensures ParseModsPrefix(ModsPrefix(f)) == f & MOD_ALL
  {
    if f == 0 {
      assert ModTokens(f) == "";
    }
    ParseModTokens(f);
  }

  // ---------------------------------------------------------------------
  // ImParseSplitCommandLine
  // ---------------------------------------------------------------------

  /** An entry of the returned argv: a string, or the NULL terminator. */
  datatype CArg = Null | Arg(text: string)

  /** The fixed program name placed in argv[0]. */
  const PROGRAM_NAME: string := "main.exe"

  /** Index of the first space of `s`, or |s| when there is none (strchr). */
  function IndexOfSpace(s: string): (k: nat)
    ensures k <= |s|
    ensures k < |s| ==> s[k] == ' '
    decreases |s|
  {
    if |s| == 0 || s[0] == ' ' then 0 else 1 + IndexOfSpace(s[1..])
  }

  /** The index is that of the first space. */
  lemma {:induction false} IndexOfSpaceIsFirst(s: string)
    ensures forall i :: 0 <= i < IndexOfSpace(s) ==> s[i] != ' '
    decreases |s|
  {
    if |s| > 0 && s[0] != ' ' {
      IndexOfSpaceIsFirst(s[1..]);
    }
  }

  /** `s` without its leading spaces. */
  function DropSpaces(s: string): (r: string)
    ensures |r| <= |s|
    decreases |s|
  {
    if |s| > 0 && s[0] == ' ' then DropSpaces(s[1..]) else s
  }

  /** DropSpaces removes exactly the leading run of spaces: what is left
      is a suffix that is empty or starts with something else. */
  lemma {:induction false} DropSpacesIsSuffix(s: string)
    ensures var r := DropSpaces(s);
      r == s[|s| - |r|..] && (|r| == 0 || r[0] != ' ')
      && forall i :: 0 <= i < |s| - |r| ==> s[i] == ' '
    decreases |s|
  {
    if |s| > 0 && s[0] == ' ' {
      DropSpacesIsSuffix(s[1..]);
    }
  }

  /** One token cut from the front of `s` at its first space: the token,
      and the text after that space (empty when there is no space). */
  function Cut(s: string): (r: (string, string))
    ensures |r.1| < |s| || (|s| == 0 && r.1 == [])
  {
    var e := IndexOfSpace(s);
    (s[..e], if e == |s| then [] else s[e + 1..])
  }

  /** The first pass of the source: counts tokens, skipping the spaces in
      front of each one. `rest` is the text from the scan pointer on. */
  function CountPass(rest: string): nat
    decreases |rest|
  {
    if |rest| == 0 then 0 else 1 + CountPass(Cut(DropSpaces(rest)).1)
  }

  /** The second pass of the source: cuts `k` tokens at single spaces,
      without skipping any leading spaces. Once the text is used up each
      further token is the empty string at the terminator. */
  function FillPass(rest: string, k: nat): (r: seq<string>)
    ensures |r| == k
    decreases k
  {
    if k == 0 then [] else [Cut(rest).0] + FillPass(Cut(rest).1, k - 1)
  }

  /** The strings as argv entries. */
  function Args(ts: seq<string>): (r: seq<CArg>)
    ensures |r| == |ts|
    ensures forall i :: 0 <= i < |ts| ==> r[i] == Arg(ts[i])
  {
    if |ts| == 0 then [] else [Arg(ts[0])] + Args(ts[1..])
  }

  /** The argv array around the tokens: the program name first and the
      NULL terminator last. */
  function Argv(toks: seq<string>): (r: seq<CArg>)
    ensures |r| == |toks| + 2
    ensures r[0] == Arg(PROGRAM_NAME) && r[|toks| + 1] == Null
  {
    [Arg(PROGRAM_NAME)] + Args(toks) + [Null]
  }

  /** argc and argv as the source builds them: argv has argc + 1 entries,
      the program name first and the terminator last. */
  function ParseSplitCommandLine(cmd: string): (r: (int, seq<CArg>))
    ensures r.0 == 1 + CountPass(cmd)
    ensures |r.1| == r.0 + 1
    ensures r.1[0] == Arg(PROGRAM_NAME) && r.1[r.0] == Null
  {
    var argc := 1 + CountPass(cmd);
    (argc, Argv(FillPass(cmd, argc - 1)))
  }

  /** The space-skipping loop at the start of each token of the first pass. */
  method SkipSpaces(cmd: string, p: nat) returns (arg: nat)
    requires p <= |cmd|
    ensures p <= arg <= |cmd| && cmd[arg..] == DropSpaces(cmd[p..])
  {
    arg := p;
    while arg < |cmd| && cmd[arg] == ' '
      invariant p <= arg <= |cmd|
      invariant DropSpaces(cmd[arg..]) == DropSpaces(cmd[p..])
    {
      assert cmd[arg..][1..] == cmd[arg + 1..];
      arg := arg + 1;
    }
  }

  /** One round of the first loop: skips the spaces at `p` and the token
      after them, and lands past the space that ends it. */
  method CountStep(cmd: string, p: nat) returns (p': nat)
    requires p < |cmd|
    ensures p < p' <= |cmd|
    ensures CountPass(cmd[p..]) == 1 + CountPass(cmd[p'..])
  {
    var arg := SkipSpaces(cmd, p);
    var a := cmd[arg..];
    var e := IndexOfSpace(a);
    if e == |a| {
      p' := |cmd|;
    } else {
      p' := arg + e + 1;
      assert cmd[p'..] == a[e + 1..];
    }
    assert cmd[p'..] == Cut(a).1;
  }

  /** The first loop of the source: the token count plus one. */
  method CountLoop(cmd: string) returns (n: int)
    ensures n == 1 + CountPass(cmd)
  {
    n := 1;
    var p := 0;
    assert cmd[0..] == cmd;
    while p < |cmd|
      invariant 0 <= p <= |cmd|
      invariant n + CountPass(cmd[p..]) == 1 + CountPass(cmd)
      decreases |cmd| - p
    {
      p := CountStep(cmd, p);
      n := n + 1;
    }
  }

  /** One round of the second loop: the token at `q` and where the next
      one starts. */
  method FillStep(cmd: string, q: nat, k: nat) returns (tok: string, q': nat)
    requires q <= |cmd| && k > 0
    ensures q' <= |cmd|
    ensures FillPass(cmd[q..], k) == [tok] + FillPass(cmd[q'..], k - 1)
  {
    var a := cmd[q..];
    var e := IndexOfSpace(a);
    tok := a[..e];
    if e == |a| {
      q' := |cmd|;
    } else {
      q' := q + e + 1;
      assert cmd[q'..] == a[e + 1..];
    }
    assert tok == Cut(a).0 && cmd[q'..] == Cut(a).1;
  }

  /** The second loop of the source: cuts `count` tokens. */
  method FillLoop(cmd: string, count: nat) returns (toks: seq<string>)
    ensures toks == FillPass(cmd, count)
  {
    toks := [];
    var q := 0;
    var k := 0;
    assert cmd[0..] == cmd;
    while k < count
      invariant 0 <= k <= count
      invariant 0 <= q <= |cmd|
      invariant toks + FillPass(cmd[q..], count - k) == FillPass(cmd, count)
    {
      var tok, q' := FillStep(cmd, q, count - k);
      assert toks + [tok] + FillPass(cmd[q'..], count - k - 1) == toks + FillPass(cmd[q..], count - k);
      toks, q := toks + [tok], q';
      k := k + 1;
    }
  }

  /** The function of the source: count, then fill argv. The command line
      is read up to its terminator, so it contains no NUL. */
  method SplitCommandLine(cmd: string) returns (argc: int, argv: seq<CArg>)
    requires forall i :: 0 <= i < |cmd| ==> cmd[i] != '\0'
    ensures (argc, argv) == ParseSplitCommandLine(cmd)
  {
    argc := CountLoop(cmd);
    var toks := FillLoop(cmd, argc - 1);
    argv := Argv(toks);
  }

  /** Words joined with single spaces. */
  function Join(ws: seq<string>): string {
    if |ws| == 0 then ""
    else if |ws| == 1 then ws[0]
    else ws[0] + [' '] + Join(ws[1..])
  }

  /** A non-empty word without spaces. */
  predicate PlainWord(w: string) {
    |w| > 0 && forall j :: 0 <= j < |w| ==> w[j] != ' '
  }

  /** Non-empty words without spaces. */
  predicate PlainWords(ws: seq<string>) {
    forall i :: 0 <= i < |ws| ==> PlainWord(ws[i])
  }

  lemma {:induction false} IndexOfSpaceAfterWord(w: string, rest: string)
    requires forall j :: 0 <= j < |w| ==> w[j] != ' '
    ensures IndexOfSpace(w + rest) == |w| + IndexOfSpace(rest)
    decreases |w|
  {
    if |w| == 0 {
      assert w + rest == rest;
    } else {
      assert (w + rest)[0] == w[0];
      assert (w + rest)[1..] == w[1..] + rest;
      IndexOfSpaceAfterWord(w[1..], rest);
    }
  }

  /** Cutting one word off the front of `w + " " + rest`. */
  lemma CutWord(w: string, rest: string)
    requires PlainWord(w)
    ensures var s := w + [' '] + rest; DropSpaces(s) == s && Cut(s) == (w, rest)
  {
    var s := w + [' '] + rest;
    IndexOfSpaceAfterWord(w, [' '] + rest);
    assert s == w + ([' '] + rest);
    assert s[0] == w[0];
    assert s[|w| + 1..] == rest;
    assert s[..|w|] == w;
  }

  /** Cutting the last word. */
  lemma CutLastWord(w: string)
    requires PlainWord(w)
    ensures DropSpaces(w) == w && Cut(w) == (w, [])
  {
    IndexOfSpaceAfterWord(w, "");
    assert w + "" == w;
    assert w[..|w|] == w;
  }

  /** Cutting at a leading space gives the empty token. */
  lemma CutAtSpace(x: string)
    ensures Cut([' '] + x) == ("", x)
    ensures DropSpaces([' '] + x) == DropSpaces(x)
  {
    assert ([' '] + x)[1..] == x;
  }

  /** The first word of a join, and the join of the rest. */
  lemma JoinHead(ws: seq<string>)
    requires |ws| > 0 && PlainWords(ws)
    ensures var s := Join(ws); |s| > 0 && DropSpaces(s) == s && Cut(s) == (ws[0], Join(ws[1..]))
  {
    assert PlainWord(ws[0]);
    if |ws| == 1 {
      CutLastWord(ws[0]);
    } else {
      CutWord(ws[0], Join(ws[1..]));
    }
  }

  lemma PlainWordsTail(ws: seq<string>)
    requires |ws| > 0 && PlainWords(ws)
    ensures PlainWord(ws[0]) && PlainWords(ws[1..])
  {
    forall i | 0 <= i < |ws| - 1 ensures PlainWord(ws[1..][i]) {
      assert ws[1..][i] == ws[i + 1];
    }
  }

  lemma {:induction false} CountJoined(ws: seq<string>)
    requires PlainWords(ws)
    ensures CountPass(Join(ws)) == |ws|
    decreases |ws|
  {
    if |ws| > 0 {
      JoinHead(ws);
      PlainWordsTail(ws);
      CountJoined(ws[1..]);
    }
  }

  /** The first `m` tokens the second pass cuts from joined words are the
      first `m` words. */
  lemma {:induction false} FillJoined(ws: seq<string>, m: nat)
    requires PlainWords(ws) && m <= |ws|
    ensures FillPass(Join(ws), m) == ws[..m]
    decreases m
  {
    if m > 0 {
      FillJoinedStep(ws, m);
      PlainWordsTail(ws);
      FillJoined(ws[1..], m - 1);
      PrefixOfTail(ws, m);
    }
  }

  lemma PrefixOfTail<T>(xs: seq<T>, m: nat)
    requires 0 < m <= |xs|
    ensures xs[..m] == [xs[0]] + xs[1..][..m - 1]
  {
  }

  /** One round of the second pass over joined words cuts the first word. */
  lemma FillJoinedStep(ws: seq<string>, m: nat)
    requires PlainWords(ws) && 0 < m <= |ws|
    ensures FillPass(Join(ws), m) == [ws[0]] + FillPass(Join(ws[1..]), m - 1)
  {
    JoinHead(ws);
  }

  /** Words separated by single spaces come back as they were: argc is one
      more than the number of words and argv[1..argc] are the words. */
  lemma SplitJoinedWords(ws: seq<string>)
    requires PlainWords(ws)
    ensures ParseSplitCommandLine(Join(ws)).0 == |ws| + 1
    ensures ParseSplitCommandLine(Join(ws)).1 == Argv(ws)
  {
    CountJoined(ws);
    FillJoined(ws, |ws|);
    assert ws[..|ws|] == ws;
  }

  /** The first pass skips a leading space. */
  lemma LeadingSpaceCount(ws: seq<string>)
    requires |ws| > 0 && PlainWords(ws)
    ensures CountPass([' '] + Join(ws)) == |ws|
  {
    JoinHead(ws);
    CutAtSpace(Join(ws));
    CountJoined(ws);
  }

  /** The second pass cuts an empty token at a leading space. */
  lemma LeadingSpaceFill(ws: seq<string>)
    requires |ws| > 0 && PlainWords(ws)
    ensures FillPass([' '] + Join(ws), |ws|) == [""] + ws[..|ws| - 1]
  {
    CutAtSpace(Join(ws));
    FillJoined(ws, |ws| - 1);
  }

  /** The leading-space defect: the first pass skips the space and counts
      every word, the second pass does not skip it, so argv[1] is the empty
      string, every word moves one slot up and the last word is lost. */
  lemma LeadingSpaceShiftsWords(ws: seq<string>)
    requires |ws| > 0 && PlainWords(ws)
    ensures ParseSplitCommandLine([' '] + Join(ws)) == (|ws| + 1, Argv([""] + ws[..|ws| - 1]))
  {
    LeadingSpaceCount(ws);
    LeadingSpaceFill(ws);
  }

  /** The shortest case of the defect: " a b" yields argv = {"main.exe",
      "", "a"}. */
  lemma LeadingSpaceLosesWord()
    ensures ParseSplitCommandLine(" a b").1 == Argv(["", "a"])
  {
    var ws := ["a", "b"];
    assert PlainWord(ws[0]) && PlainWord(ws[1]);
    assert Join(ws) == "a b" by {
      assert Join(ws[1..]) == "b";
    }
    LeadingSpaceShiftsWords(ws);
    assert [' '] + "a b" == " a b";
    assert ws[..1] == ["a"];
  }

  /** The tokens the first pass counts, cut out the way it cuts them. */
  function CountedTokens(rest: string): (r: seq<string>)
    ensures |r| == CountPass(rest)
    decreases |rest|
  {
    if |rest| == 0 then []
    else
      var c := Cut(DropSpaces(rest));
      [c.0] + CountedTokens(c.1)
  }

  /** The second pass with the leading spaces of each token skipped, as
      the first pass skips them. */
  function FillPassSkipping(rest: string, k: nat): (r: seq<string>)
    ensures |r| == k
    decreases k
  {
    if k == 0 then []
    else
      var c := Cut(DropSpaces(rest));
      [c.0] + FillPassSkipping(c.1, k - 1)
  }

  /** argc and argv with both passes agreeing on where tokens start. */
  function ParseSplitCommandLineFixed(cmd: string): (r: (int, seq<CArg>))
    ensures r.0 == 1 + CountPass(cmd)
    ensures |r.1| == r.0 + 1
    ensures r.1[0] == Arg(PROGRAM_NAME) && r.1[r.0] == Null
  {
    var argc := 1 + CountPass(cmd);
    (argc, Argv(FillPassSkipping(cmd, argc - 1)))
  }

  lemma {:induction false} FillSkippingMatchesCount(rest: string)
    ensures FillPassSkipping(rest, CountPass(rest)) == CountedTokens(rest)
    decreases |rest|
  {
    if |rest| > 0 {
      FillSkippingMatchesCount(Cut(DropSpaces(rest)).1);
    }
  }

  /** With the fix, argv[1..argc] are exactly the tokens the first pass
      counted. */
  lemma FixedFillsCountedTokens(cmd: string)
    ensures ParseSplitCommandLineFixed(cmd).1 == Argv(CountedTokens(cmd))
  {
    FillSkippingMatchesCount(cmd);
  }

  /** `n` spaces. */
  function Spaces(n: nat): (r: string)
    ensures |r| == n
  {
    if n == 0 then [] else [' '] + Spaces(n - 1)
  }

  lemma {:induction false} DropSpacesAfterSpaces(n: nat, s: string)
    requires |s| > 0 && s[0] != ' '
    ensures DropSpaces(Spaces(n) + s) == s
    decreases n
  {
    if n == 0 {
      assert Spaces(n) + s == s;
    } else {
      var t := Spaces(n) + s;
      assert t[0] == ' ';
      assert t[1..] == Spaces(n - 1) + s;
      DropSpacesAfterSpaces(n - 1, s);
    }
  }

  /** With the fix, spaces in front of the command line change nothing:
      " a b" splits like "a b". */
  lemma FixedIgnoresLeadingSpaces(n: nat, s: string)
    requires |s| > 0 && s[0] != ' '
    ensures ParseSplitCommandLineFixed(Spaces(n) + s) == ParseSplitCommandLineFixed(s)
  {
    DropSpacesAfterSpaces(n, s);
    SameStartSameSplit(Spaces(n) + s, s);
  }

  /** Two non-empty command lines that agree once their leading spaces
      are dropped split alike under the fix. */
  lemma SameStartSameSplit(t: string, s: string)
    requires |t| > 0 && |s| > 0 && DropSpaces(t) == s && s[0] != ' '
    ensures ParseSplitCommandLineFixed(t) == ParseSplitCommandLineFixed(s)
  {
    assert DropSpaces(s) == s;
    assert CountPass(t) == 1 + CountPass(Cut(s).1) == CountPass(s);
    var k := CountPass(s);
    assert FillPassSkipping(t, k) == [Cut(s).0] + FillPassSkipping(Cut(s).1, k - 1) == FillPassSkipping(s, k);
  }

  lemma {:induction false} JoinedTokens(ws: seq<string>)
    requires PlainWords(ws)
    ensures CountedTokens(Join(ws)) == ws
    decreases |ws|
  {
    if |ws| > 0 {
      JoinHead(ws);
      PlainWordsTail(ws);
      JoinedTokens(ws[1..]);
    }
  }

  /** With the fix, single-space-separated words still come back as they
      were, as with the source. */
  lemma FixedSplitsJoinedWords(ws: seq<string>)
    requires PlainWords(ws)
    ensures ParseSplitCommandLineFixed(Join(ws)).1 == Argv(ws)
  {
    CountJoined(ws);
    JoinedTokens(ws);
    FixedFillsCountedTokens(Join(ws));
  }

  /** With the fix, a leading space no longer shifts the words. */
  lemma FixedLeadingSpace(ws: seq<string>)
    requires |ws| > 0 && PlainWords(ws)
    ensures ParseSplitCommandLineFixed([' '] + Join(ws)) == (|ws| + 1, Argv(ws))
  {
    JoinHead(ws);
    assert Join(ws)[0] != ' ';
    FixedIgnoresLeadingSpaces(1, Join(ws));
    assert Spaces(1) == [' '];
    FixedSplitsJoinedWords(ws);
    CountJoined(ws);
  }

  /** The fixed splitter on the input that shows the defect. */
  lemma FixedKeepsEveryWord()
    ensures ParseSplitCommandLineFixed(" a b").1 == Argv(["a", "b"])
  {
    var ws := ["a", "b"];
    assert PlainWord(ws[0]) && PlainWord(ws[1]);
    assert Join(ws) == "a b" by {
      assert Join(ws[1..]) == "b";
    }
    FixedLeadingSpace(ws);
    assert [' '] + "a b" == " a b";
  }
  /** The defect from inside the line: in "a  b" the second space opens
      an empty token, so argv = {"main.exe", "a", ""} and "b" is lost. */
  lemma InnerSpacesLoseWord()
    ensures ParseSplitCommandLine("a  b") == (3, Argv(["a", ""]))
  {
    var cmd := "a  b";
    assert IndexOfSpace(cmd) == 1;
    assert cmd[..1] == "a";
    assert Cut(cmd) == ("a", cmd[2..]);
    assert cmd[2..] == " b";
    assert DropSpaces(" b") == "b";
    assert IndexOfSpace("b") == 1;
    assert "b"[..1] == "b";
    assert Cut("b") == ("b", []);
    assert CountPass(" b") == 1;
    assert CountPass(cmd) == 2;
    assert Cut(" b") == ("", "b");
    assert FillPass(" b", 1) == [""];
  }

  /** The fixed splitter keeps both words of "a  b". */
  lemma FixedInnerSpaces()
    ensures ParseSplitCommandLineFixed("a  b") == (3, Argv(["a", "b"]))
  {
    var cmd := "a  b";
    assert IndexOfSpace(cmd) == 1;
    assert cmd[..1] == "a";
    assert Cut(cmd) == ("a", cmd[2..]);
    assert cmd[2..] == " b";
    assert DropSpaces(" b") == "b";
    assert IndexOfSpace("b") == 1;
    assert "b"[..1] == "b";
    assert Cut("b") == ("b", []);
    assert CountPass(" b") == 1;
    assert CountPass(cmd) == 2;
    assert FillPassSkipping(" b", 1) == ["b"];
  }
}
