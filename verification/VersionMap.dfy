/**
 * devtools/update_version_map_abi.py: a version map is read into a set of stable lines and the
 * lines of the EXPERIMENTAL and the INTERNAL section, and written again with one stable version.
 * A file is the sequence of its lines, without the line ends.
 */
module VersionMap {
  import opened MapLines

  datatype Parsed = Parsed(hasStable: bool, stable: set<string>, experimental: seq<string>, internal: seq<string>)

  /** The state of the loop over the lines. */
  datatype State = State(parsed: Parsed, inExperimental: bool, inInternal: bool)

  const START := State(Parsed(false, {}, [], []), false, false)

  /** What one line does. */
  ghost function Step(st: State, raw: string): (r: State)
  {
    var line, p := Strip(raw), st.parsed;
    if IsSectionEnd(line) then State(p, false, false)
    else if st.inExperimental then st.(parsed := p.(experimental := p.experimental + [line]))
    else if st.inInternal then st.(parsed := p.(internal := p.internal + [line]))
    else if line == "" then st
    else if IsSectionBegin(line) then
      var name := SectionName(line);
      State(if name == "EXPERIMENTAL" || name == "INTERNAL" then p else p.(hasStable := true),
            name == "EXPERIMENTAL", name == "INTERNAL")
    else if IsFunctionLine(line) then st.(parsed := p.(stable := p.stable + {line}))
    else st
  }

  ghost function Steps(st: State, lines: seq<string>): (r: State)
  {
    if lines == [] then st else Step(Steps(st, lines[..|lines| - 1]), lines[|lines| - 1])
  }

  lemma StepsNone(st: State)
    ensures Steps(st, []) == st
  {
  }

  lemma StepsMore(st: State, lines: seq<string>, line: string)
    ensures Steps(st, lines + [line]) == Step(Steps(st, lines), line)
  {
    assert (lines + [line])[..|lines|] == lines;
  }

  lemma {:induction false} StepsConcat(st: State, a: seq<string>, b: seq<string>)
    ensures Steps(st, a + b) == Steps(Steps(st, a), b)
    decreases |b|
  {
    hide Step;
    if b == [] {
      assert a + b == a;
    } else {
      var last := |b| - 1;
      StepsConcat(st, a, b[..last]);
      StepsMore(st, a + b[..last], b[last]);
      assert a + b == a + b[..last] + [b[last]];
    }
  }

  /** What the parser returns for a file. */
  ghost function Parse(file: seq<string>): (p: Parsed)
  {
    Steps(START, file).parsed
  }

  /** __parse_map_file. */
  method ParseMapFile(file: seq<string>) returns (p: Parsed)
    ensures p == Parse(file)
  {
    hide Steps, IsSectionBegin, IsSectionEnd, IsFunctionLine, SectionName, Strip;
    StepsNone(START);
    assert file[..0] == [];
    var stableLines: set<string> := {};
    var experimentalLines, internalLines: seq<string> := [], [];
    var inExperimental, inInternal, hasStable := false, false, false;
    for n := 0 to |file|
      invariant Steps(START, file[..n])
             == State(Parsed(hasStable, stableLines, experimentalLines, internalLines), inExperimental, inInternal)
    {
      assert file[..n + 1] == file[..n] + [file[n]];
      StepsMore(START, file[..n], file[n]);
      var line := Strip(file[n]);
      if IsSectionEnd(line) {
        inExperimental := false;
        inInternal := false;
        continue;
      }
      if inExperimental {
        experimentalLines := experimentalLines + [line];
        continue;
      }
      if inInternal {
        internalLines := internalLines + [line];
        continue;
      }
      if line == "" {
        continue;
      }
      if IsSectionBegin(line) {
        var curSection := SectionName(line);
        inExperimental := curSection == "EXPERIMENTAL";
        inInternal := curSection == "INTERNAL";
        if !inExperimental && !inInternal {
          hasStable := true;
        }
        continue;
      }
      if IsFunctionLine(line) {
        stableLines := stableLines + {line};
      }
    }
    assert file[..|file|] == file;
    return Parsed(hasStable, stableLines, experimentalLines, internalLines);
  }

  /** Lines as the parser collects them. */
  ghost predicate Verbatim(lines: seq<string>)
  {
    forall k :: 0 <= k < |lines| ==> Stripped(lines[k]) && !IsSectionEnd(lines[k])
  }

  ghost predicate Functions(lines: set<string>)
  {
    forall l :: l in lines ==> Stripped(l) && IsFunctionLine(l)
  }

  ghost predicate Collected(p: Parsed)
  {
    Functions(p.stable) && Verbatim(p.experimental) && Verbatim(p.internal)
  }

  /** Whatever the file, the parser collects only such lines. */
  lemma {:induction false} ParserCollects(file: seq<string>)
    ensures Collected(Steps(START, file).parsed)
    decreases |file|
  {
    if file != [] {
      var last := |file| - 1;
      ParserCollects(file[..last]);
      StripStrips(file[last]);
    }
  }

  /** A line of any section but the two the script names is stable, whatever blanks are around it. */
  lemma AnySectionIsStable(name: string, line: string, before: string, after: string)
    requires name != [] && name != "EXPERIMENTAL" && name != "INTERNAL" && forall c :: c in name ==> IsName(c)
    requires Stripped(line) && IsFunctionLine(line) && Blank(before) && Blank(after)
    ensures Parse([before + (name + " {") + after, before + line + after]) == Parsed(true, {line}, [], [])
  {
    var header := name + " {";
    HeaderIsBegin(name);
    FunctionLineIsNoOther(line);
    StripExactly(before, header, after);
    StripExactly(before, line, after);
    hide IsName, Blank, Strip, IsSectionBegin, IsSectionEnd, IsFunctionLine, SectionName;
    var file := [before + header + after, before + line + after];
    StepsNone(START);
    assert file[..1] == [file[0]] && file[..1][..0] == [];
    assert Steps(START, file[..1]) == Step(START, file[0]) == State(Parsed(true, {}, [], []), false, false);
  }

  lemma ReservedNames(name: string)
    requires name == "EXPERIMENTAL" || name == "INTERNAL"
    ensures name != [] && forall c :: c in name ==> IsName(c)
  {
  }

  /** A line of a section the script names is kept as it is, but for the blanks around it. */
  lemma NamedSection(name: string, line: string, before: string, after: string)
    requires name == "EXPERIMENTAL" || name == "INTERNAL"
    requires Stripped(line) && !IsSectionEnd(line) && Blank(before) && Blank(after)
    ensures Parse([before + (name + " {") + after, before + line + after])
         == if name == "EXPERIMENTAL" then Parsed(false, {}, [line], []) else Parsed(false, {}, [], [line])
  {
    var header := name + " {";
    ReservedNames(name);
    HeaderIsBegin(name);
    StripExactly(before, header, after);
    StripExactly(before, line, after);
    hide IsName, Blank, Strip, IsSectionBegin, IsSectionEnd, IsFunctionLine, SectionName;
    var file := [before + header + after, before + line + after];
    StepsNone(START);
    assert file[..1] == [file[0]] && file[..1][..0] == [];
    assert Steps(START, file[..1]) == Step(START, file[0])
        == State(START.parsed, name == "EXPERIMENTAL", name == "INTERNAL");
  }

  /** The order of strings: character by character. */
  predicate Less(a: string, b: string)
  {
    b != "" && (a == "" || a[0] < b[0] || (a[0] == b[0] && Less(a[1..], b[1..])))
  }

  lemma {:induction false} LessTrans(a: string, b: string, c: string)
    requires Less(a, b) && Less(b, c)
    ensures Less(a, c) && a != c
  {
    if a != "" {
      if a[0] == b[0] == c[0] {
        LessTrans(a[1..], b[1..], c[1..]);
      }
    }
  }

  lemma {:induction false} LessTotal(a: string, b: string)
    ensures Less(a, b) || a == b || Less(b, a)
  {
    if a != "" && b != "" && a[0] == b[0] {
      LessTotal(a[1..], b[1..]);
      assert a == [a[0]] + a[1..] && b == [b[0]] + b[1..];
    }
  }

  lemma {:induction false} LessIsStrict(a: string, b: string)
    requires Less(a, b)
    ensures a != b && !Less(b, a)
  {
    if a != "" && a[0] == b[0] {
      LessIsStrict(a[1..], b[1..]);
    }
  }

  ghost predicate Ascending(s: seq<string>)
  {
    forall i, j :: 0 <= i < j < |s| ==> Less(s[i], s[j])
  }

  ghost predicate SortedOf(s: seq<string>, lines: set<string>)
  {
    Ascending(s) && forall l :: l in lines <==> l in s
  }

  lemma SortedEmpty(s: seq<string>, lines: set<string>)
    requires SortedOf(s, lines)
    ensures lines == {} <==> s == []
  {
    if s == [] {
      assert forall l :: l in lines ==> l in s;
    } else {
      assert s[0] in s;
    }
  }

  /** There is only one way to sort a set of lines. */
  lemma {:induction false} SortedUnique(s: seq<string>, t: seq<string>, lines: set<string>)
    requires SortedOf(s, lines) && SortedOf(t, lines)
    ensures s == t
    decreases |s|
  {
    if s == [] {
      assert forall k :: 0 <= k < |t| ==> t[k] in s;
    } else {
      assert s[0] in t;
      var m, n := |s| - 1, |t| - 1;
      SameLast(s, t, lines);
      WithoutLast(s, lines);
      WithoutLast(t, lines);
      SortedUnique(s[..m], t[..n], lines - {s[m]});
      assert s == s[..m] + [s[m]] && t == t[..n] + [t[n]];
    }
  }

  lemma SameLast(s: seq<string>, t: seq<string>, lines: set<string>)
    requires SortedOf(s, lines) && SortedOf(t, lines) && s != [] && t != []
    ensures s[|s| - 1] == t[|t| - 1]
  {
    var a, b := s[|s| - 1], t[|t| - 1];
    assert a in lines && b in lines;
    var i :| 0 <= i < |s| && s[i] == b;
    var j :| 0 <= j < |t| && t[j] == a;
    if a != b {
      LessIsStrict(a, b);
    }
  }

  lemma WithoutLast(s: seq<string>, lines: set<string>)
    requires SortedOf(s, lines) && s != []
    ensures SortedOf(s[..|s| - 1], lines - {s[|s| - 1]})
  {
    var last := |s| - 1;
    forall l | l in s[..last] ensures l != s[last] {
      var i :| 0 <= i < last && s[i] == l;
      LessIsStrict(s[i], s[last]);
    }
  }

  /** The built-in sorted. */
  method Sorted(lines: set<string>) returns (s: seq<string>)
    ensures SortedOf(s, lines)
  {
    s := [];
    var rest := lines;
    while rest != {}
      invariant rest <= lines && SortedOf(s, lines - rest)
      decreases |rest|
    {
      var l :| l in rest;
      s := Insert(s, l, lines - rest);
      rest := rest - {l};
      assert lines - rest == lines - (rest + {l}) + {l};
    }
    assert lines - rest == lines;
  }

  method Insert(s: seq<string>, l: string, ghost lines: set<string>) returns (t: seq<string>)
    requires SortedOf(s, lines) && l !in lines
    ensures SortedOf(t, lines + {l})
  {
    var k := 0;
    while k < |s| && Less(s[k], l)
      invariant 0 <= k <= |s| && forall i :: 0 <= i < k ==> Less(s[i], l)
    {
      k := k + 1;
    }
    forall i | k <= i < |s| ensures Less(l, s[i]) {
      assert s[i] in s && s[k] in s;
      LessTotal(l, s[k]);
      if k < i {
        LessTrans(l, s[k], s[i]);
      }
    }
    t := s[..k] + [l] + s[k..];
  }

  /** Ten digits, beginning with the zero of an alphabet. */
  predicate Ten(n: int, zero: int)
  {
    zero <= n <= zero + 9
  }

  /** The decimal digits of other alphabets, category Nd of Unicode 14.0: those of 16 bits. */
  predicate OtherDigit(n: int): (yes: bool)
    ensures yes ==> 0x660 <= n < 0x1_0000
  {
    || Ten(n, 0x660) || Ten(n, 0x6F0) || Ten(n, 0x7C0) || Ten(n, 0x966) || Ten(n, 0x9E6) || Ten(n, 0xA66)
    || Ten(n, 0xAE6) || Ten(n, 0xB66) || Ten(n, 0xBE6) || Ten(n, 0xC66) || Ten(n, 0xCE6) || Ten(n, 0xD66)
    || Ten(n, 0xDE6) || Ten(n, 0xE50) || Ten(n, 0xED0) || Ten(n, 0xF20) || Ten(n, 0x1040) || Ten(n, 0x1090)
    || Ten(n, 0x17E0) || Ten(n, 0x1810) || Ten(n, 0x1946) || Ten(n, 0x19D0) || Ten(n, 0x1A80) || Ten(n, 0x1A90)
    || Ten(n, 0x1B50) || Ten(n, 0x1BB0) || Ten(n, 0x1C40) || Ten(n, 0x1C50) || Ten(n, 0xA620) || Ten(n, 0xA8D0)
    || Ten(n, 0xA900) || Ten(n, 0xA9D0) || Ten(n, 0xA9F0) || Ten(n, 0xAA50) || Ten(n, 0xABF0) || Ten(n, 0xFF10)
  }

  /** And the longer ones. */
  predicate LongDigit(n: int): (yes: bool)
    ensures yes ==> 0x1_0000 <= n
  {
    || Ten(n, 0x104A0) || Ten(n, 0x10D30) || Ten(n, 0x11066) || Ten(n, 0x110F0) || Ten(n, 0x11136) || Ten(n, 0x111D0)
    || Ten(n, 0x112F0) || Ten(n, 0x11450) || Ten(n, 0x114D0) || Ten(n, 0x11650) || Ten(n, 0x116C0) || Ten(n, 0x11730)
    || Ten(n, 0x118E0) || Ten(n, 0x11950) || Ten(n, 0x11C50) || Ten(n, 0x11D50) || Ten(n, 0x11DA0) || Ten(n, 0x16A60)
    || Ten(n, 0x16AC0) || Ten(n, 0x16B50) || Ten(n, 0x1D7CE) || Ten(n, 0x1D7D8) || Ten(n, 0x1D7E2) || Ten(n, 0x1D7EC)
    || Ten(n, 0x1D7F6) || Ten(n, 0x1E140) || Ten(n, 0x1E2F0) || Ten(n, 0x1E950) || Ten(n, 0x1FBF0)
  }

  lemma DigitIsNoSpace(c: char)
    ensures OtherDigit(c as int) || LongDigit(c as int) ==> !IsSpace(c)
  {
    hide LongDigit;
  }

  /** A character that `\d` matches. */
  predicate IsDigit(c: char): (yes: bool)
    ensures yes ==> !IsSpace(c) && ('0' <= c <= '9' || c as int >= 0x660)
  {
    hide OtherDigit, LongDigit;
    DigitIsNoSpace(c);
    '0' <= c <= '9' || OtherDigit(c as int) || LongDigit(c as int)
  }

  /** The version begins with `m` digits, a dot and a digit. */
  ghost predicate Begins(version: string, m: nat)
  {
    && m + 1 < |version| && version[m] == '.' && IsDigit(version[m + 1])
    && forall k :: 0 <= k < m ==> IsDigit(version[k])
  }

  /** The part of a version before its first dot, if it begins like MAJOR.MINOR. */
  function AbiMajor(version: string): (major: string)
    ensures major != "" <==> Begins(version, 1) || Begins(version, 2)
    ensures major != "" ==> IsMajor(major) && |major| < |version|
    ensures major != "" ==> version[..|major|] == major && version[|major|] == '.'
  {
    if |version| >= 3 && IsDigit(version[0]) && version[1] == '.' && IsDigit(version[2]) then version[..1]
    else if |version| >= 4 && IsDigit(version[0]) && IsDigit(version[1]) && version[2] == '.' && IsDigit(version[3])
    then version[..2]
    else ""
  }

  predicate IsMajor(major: string)
  {
    major != "" && forall m :: 0 <= m < |major| ==> IsDigit(major[m])
  }

  predicate IsAscii(major: string)
  {
    forall m :: 0 <= m < |major| ==> '0' <= major[m] <= '9'
  }

  /** A line as it is printed; empty lines stay empty. */
  function Printed(line: string): (l: string)
  {
    if line == "" then "" else "\t" + line
  }

  ghost function AllPrinted(lines: seq<string>): (r: seq<string>)
    ensures |r| == |lines| && forall k :: 0 <= k < |lines| ==> r[k] == Printed(lines[k])
  {
    seq(|lines|, k requires 0 <= k < |lines| => Printed(lines[k]))
  }

  ghost function StableSection(major: string, sorted: seq<string>): (r: seq<string>)
  {
    ["DPDK_" + major + " {"] + GlobalPart(sorted) + ["\tlocal: *;", "};"]
  }

  ghost function GlobalPart(sorted: seq<string>): (r: seq<string>)
  {
    if sorted == [] then [] else ["\tglobal:", ""] + AllPrinted(sorted) + [""]
  }

  ghost function CopiedSection(name: string, lines: seq<string>): (r: seq<string>)
  {
    [name + " {"] + AllPrinted(lines) + ["};"]
  }

  /** The new file. */
  ghost function Layout(p: Parsed, major: string, sorted: seq<string>): (r: seq<string>)
  {
    (if p.hasStable then StableSection(major, sorted) else [])
    + (if p.hasStable && p.experimental != [] then [""] else [])
    + (if p.experimental != [] then CopiedSection("EXPERIMENTAL", p.experimental) else [])
    + (if p.internal != [] && (p.hasStable || p.experimental != []) then [""] else [])
    + (if p.internal != [] then CopiedSection("INTERNAL", p.internal) else [])
  }

  lemma GlobalLines(before: seq<string>, all: seq<string>)
    ensures before + ["\tglobal:"] + [""] + all + [""] == before + (["\tglobal:", ""] + all + [""])
  {
  }

  /** The file written by the script. */
  class Out {
    var lines: seq<string>

    constructor ()
      ensures lines == []
    {
      lines := [];
    }

    method Print(line: string)
      modifies this
      ensures lines == old(lines) + [line]
    {
      lines := lines + [line];
    }

    method PrintAll(all: seq<string>)
      modifies this
      ensures lines == old(lines) + AllPrinted(all)
    {
      for k := 0 to |all|
        invariant lines == old(lines) + AllPrinted(all)[..k]
      {
        Print(Printed(all[k]));
        assert AllPrinted(all)[..k + 1] == AllPrinted(all)[..k] + [Printed(all[k])];
      }
      assert AllPrinted(all)[..|all|] == AllPrinted(all);
    }

    /** __generate_stable_abi. */
    method GenerateStableAbi(major: string, stable: set<string>) returns (ghost sorted: seq<string>)
      requires Functions(stable)
      modifies this
      ensures SortedOf(sorted, stable) && lines == old(lines) + StableSection(major, sorted)
    {
      hide GlobalPart;
      var all := Sorted(stable);
      sorted := all;
      Print("DPDK_" + major + " {");
      SortedEmpty(all, stable);
      PrintGlobal(stable, all);
      Print("\tlocal: *;");
      Print("};");
    }

    /** The global part; its lines are never empty, so that each gets its tab. */
    method PrintGlobal(stable: set<string>, all: seq<string>)
      requires stable == {} <==> all == []
      modifies this
      ensures lines == old(lines) + GlobalPart(all)
    {
      hide AllPrinted;
      if stable != {} {
        Print("\tglobal:");
        Print("");
        PrintAll(all);
        Print("");
        GlobalLines(old(lines), AllPrinted(all));
      }
    }

    /** __generate_experimental_abi and __generate_internal_abi. */
    method GenerateCopied(name: string, all: seq<string>)
      modifies this
      ensures lines == old(lines) + CopiedSection(name, all)
    {
      Print(name + " {");
      PrintAll(all);
      Print("};");
    }

    /** The part of __main that writes the file. */
    method Generate(p: Parsed, major: string) returns (ghost sorted: seq<string>)
      requires Functions(p.stable) && lines == []
      modifies this
      ensures p.hasStable ==> SortedOf(sorted, p.stable)
      ensures lines == Layout(p, major, sorted)
    {
      hide StableSection, CopiedSection;
      sorted := [];
      if p.hasStable {
        sorted := GenerateStableAbi(major, p.stable);
      }
      if p.hasStable && p.experimental != [] {
        Print("");
      }
      if p.experimental != [] {
        GenerateCopied("EXPERIMENTAL", p.experimental);
      }
      if p.internal != [] {
        if p.hasStable || p.experimental != [] {
          Print("");
        }
        GenerateCopied("INTERNAL", p.internal);
      }
    }
  }

  /** Between two sections. */
  ghost predicate Idle(st: State)
  {
    !st.inExperimental && !st.inInternal
  }

  lemma EmptyLine(st: State)
    ensures Idle(st) ==> Step(st, "") == st
  {
    assert Strip("") == "";
  }

  lemma StepFunction(st: State, line: string)
    requires Idle(st) && Stripped(line) && IsFunctionLine(line)
    ensures Step(st, Printed(line)) == st.(parsed := st.parsed.(stable := st.parsed.stable + {line}))
  {
    hide IsSectionBegin, IsSectionEnd, IsFunctionLine;
    StripTab(line);
    FunctionLineIsNoOther(line);
  }

  lemma StepCopied(st: State, line: string)
    requires !Idle(st) && Stripped(line) && !IsSectionEnd(line)
    ensures Step(st, Printed(line))
         == if st.inExperimental
            then st.(parsed := st.parsed.(experimental := st.parsed.experimental + [line]))
            else st.(parsed := st.parsed.(internal := st.parsed.internal + [line]))
  {
    hide IsSectionBegin, IsSectionEnd, IsFunctionLine;
    StripTab(line);
    assert Strip("") == "";
  }

  lemma AllPrintedMore(lines: seq<string>, line: string)
    ensures AllPrinted(lines + [line]) == AllPrinted(lines) + [Printed(line)]
  {
  }

  lemma NonePrinted()
    ensures AllPrinted([]) == []
  {
  }

  ghost predicate AllFunctions(lines: seq<string>)
  {
    forall k :: 0 <= k < |lines| ==> Stripped(lines[k]) && IsFunctionLine(lines[k])
  }

  ghost function SetOf(lines: seq<string>): (r: set<string>)
  {
    set l | l in lines
  }

  /** Printed function lines are read as they were. */
  lemma {:induction false} ReadFunctions(st: State, lines: seq<string>)
    requires Idle(st) && AllFunctions(lines)
    ensures Steps(st, AllPrinted(lines)) == st.(parsed := st.parsed.(stable := st.parsed.stable + SetOf(lines)))
    decreases |lines|
  {
    hide Step, IsFunctionLine, Stripped, Printed, AllPrinted, Steps;
    if lines == [] {
      StepsNone(st);
      NonePrinted();
      assert SetOf(lines) == {};
    } else {
      var last := |lines| - 1;
      var front := lines[..last];
      ReadFunctions(st, front);
      AllPrintedMore(front, lines[last]);
      assert lines == front + [lines[last]];
      StepsMore(st, AllPrinted(front), Printed(lines[last]));
      StepFunction(Steps(st, AllPrinted(front)), lines[last]);
      assert SetOf(lines) == SetOf(front) + {lines[last]};
    }
  }

  /** So are the lines of the other two sections. */
  lemma {:induction false} ReadCopied(st: State, lines: seq<string>)
    requires !Idle(st) && Verbatim(lines)
    ensures Steps(st, AllPrinted(lines))
         == if st.inExperimental
            then st.(parsed := st.parsed.(experimental := st.parsed.experimental + lines))
            else st.(parsed := st.parsed.(internal := st.parsed.internal + lines))
    decreases |lines|
  {
    hide Step, IsSectionEnd;
    if lines == [] {
    } else {
      var last := |lines| - 1;
      var front := lines[..last];
      ReadCopied(st, front);
      AllPrintedMore(front, lines[last]);
      assert lines == front + [lines[last]];
      StepsMore(st, AllPrinted(front), Printed(lines[last]));
      StepCopied(Steps(st, AllPrinted(front)), lines[last]);
    }
  }

  lemma StepClosing(st: State)
    ensures Step(st, "};") == State(st.parsed, false, false)
  {
    ClosingLine();
    StripTab("};");
    assert Strip("};") == "};";
  }

  /** A copied section is read back whole. */
  lemma ReadSection(st: State, name: string, lines: seq<string>)
    requires Idle(st) && Verbatim(lines) && name in {"EXPERIMENTAL", "INTERNAL"}
    ensures Steps(st, CopiedSection(name, lines))
         == if name == "EXPERIMENTAL"
            then st.(parsed := st.parsed.(experimental := st.parsed.experimental + lines))
            else st.(parsed := st.parsed.(internal := st.parsed.internal + lines))
  {
    hide AllPrinted, IsSectionBegin, IsSectionEnd, IsFunctionLine;
    var header := name + " {";
    HeaderIsBegin(name);
    StripTab(header);
    var st1 := Step(st, header);
    assert st1 == State(st.parsed, name == "EXPERIMENTAL", name == "INTERNAL");
    assert Steps(st, []) == st;
    StepsMore(st, [], header);
    assert [] + [header] == [header];
    StepsConcat(st, [header], AllPrinted(lines));
    ReadCopied(st1, lines);
    StepsMore(st, [header] + AllPrinted(lines), "};");
    StepClosing(Steps(st1, AllPrinted(lines)));
  }

  /** The header of the stable section is read as one exactly if the major version is plain. */
  lemma StepHeader(st: State, major: string)
    requires Idle(st) && IsMajor(major)
    ensures Step(st, "DPDK_" + major + " {")
         == st.(parsed := st.parsed.(hasStable := st.parsed.hasStable || IsAscii(major)))
  {
    hide IsSectionBegin, IsSectionEnd, IsFunctionLine, SectionName, Strip, Stripped;
    var n := "DPDK_" + major;
    if IsAscii(major) {
      assert forall c :: c in n ==> IsName(c);
      HeaderIsBegin(n);
      assert n[0] == 'D';
    } else {
      var d := FirstOther(major);
      HeaderIsNothing(n, d + 5);
    }
    StripPlain(n + " {");
  }

  lemma StripPlain(line: string)
    requires Stripped(line)
    ensures Strip(line) == line
  {
    StripTab(line);
  }

  lemma {:induction false} FirstOther(major: string) returns (d: nat)
    requires IsMajor(major) && !IsAscii(major)
    ensures d < |major| && !('0' <= major[d] <= '9') && forall m :: 0 <= m < d ==> '0' <= major[m] <= '9'
    decreases |major|
  {
    if IsAscii(major[..|major| - 1]) {
      d := |major| - 1;
      assert forall m :: 0 <= m < d ==> major[..|major| - 1][m] == major[m];
    } else {
      d := FirstOther(major[..|major| - 1]);
    }
  }

  lemma StepFixed(st: State)
    requires Idle(st)
    ensures Step(st, "\tglobal:") == st && Step(st, "\tlocal: *;") == st && Step(st, "") == st
  {
    hide IsSectionBegin, IsSectionEnd, IsFunctionLine, Strip, Stripped;
    GlobalLine();
    LocalLine();
    StripTab("global:");
    StripTab("local: *;");
    assert "\t" + "global:" == "\tglobal:" && "\t" + "local: *;" == "\tlocal: *;";
    EmptyLine(st);
  }

  lemma ReadGlobal(st: State, sorted: seq<string>)
    requires Idle(st) && AllFunctions(sorted)
    ensures Steps(st, GlobalPart(sorted)) == st.(parsed := st.parsed.(stable := st.parsed.stable + SetOf(sorted)))
  {
    hide Step, AllFunctions, AllPrinted;
    if sorted == [] {
      assert SetOf(sorted) == {};
    } else {
      StepFixed(st);
      assert Steps(st, []) == st;
      StepsMore(st, [], "\tglobal:");
      StepsMore(st, ["\tglobal:"], "");
      assert [] + ["\tglobal:"] == ["\tglobal:"] && ["\tglobal:"] + [""] == ["\tglobal:", ""];
      StepsConcat(st, ["\tglobal:", ""], AllPrinted(sorted));
      ReadFunctions(st, sorted);
      StepsMore(st, ["\tglobal:", ""] + AllPrinted(sorted), "");
      StepFixed(Steps(st, AllPrinted(sorted)));
    }
  }

  lemma ReadStable(st: State, major: string, sorted: seq<string>)
    requires Idle(st) && IsMajor(major) && AllFunctions(sorted)
    ensures Steps(st, StableSection(major, sorted))
         == st.(parsed := st.parsed.(hasStable := st.parsed.hasStable || IsAscii(major),
                                     stable := st.parsed.stable + SetOf(sorted)))
  {
    hide Step, AllFunctions, GlobalPart;
    var header := "DPDK_" + major + " {";
    StepHeader(st, major);
    var st1 := Step(st, header);
    assert Steps(st, []) == st && [] + [header] == [header];
    StepsMore(st, [], header);
    StepsConcat(st, [header], GlobalPart(sorted));
    ReadGlobal(st1, sorted);
    var st2 := Steps(st1, GlobalPart(sorted));
    var lines := [header] + GlobalPart(sorted);
    StepsMore(st, lines, "\tlocal: *;");
    StepFixed(st2);
    StepsMore(st, lines + ["\tlocal: *;"], "};");
    StepClosing(st2);
    assert StableSection(major, sorted) == lines + ["\tlocal: *;"] + ["};"];
  }

  /** What is left of a parsed file after it was written and read again. */
  ghost function Reread(p: Parsed, major: string): (q: Parsed)
  {
    Parsed(p.hasStable && IsAscii(major), if p.hasStable then p.stable else {}, p.experimental, p.internal)
  }

  lemma ReadMaybe(st: State, lines: seq<string>, more: seq<string>, st': State)
    requires Steps(Steps(st, lines), more) == st'
    ensures Steps(st, lines + more) == st'
  {
    StepsConcat(st, lines, more);
  }

  lemma ReadBlank(st: State, blank: bool)
    requires Idle(st)
    ensures Steps(st, if blank then [""] else []) == st
  {
    hide Step;
    StepFixed(st);
    assert [] + [""] == [""];
    StepsMore(st, [], "");
  }

  lemma ReadLayout(p: Parsed, major: string, sorted: seq<string>)
    requires Verbatim(p.experimental) && Verbatim(p.internal) && IsMajor(major)
    requires p.hasStable ==> AllFunctions(sorted) && SetOf(sorted) == p.stable
    ensures Parse(Layout(p, major, sorted)) == Reread(p, major)
  {
    hide Step, Verbatim, AllFunctions, StableSection, CopiedSection;
    var a := if p.hasStable then StableSection(major, sorted) else [];
    var blank1 := if p.hasStable && p.experimental != [] then [""] else [];
    var e := if p.experimental != [] then CopiedSection("EXPERIMENTAL", p.experimental) else [];
    var blank2 := if p.internal != [] && (p.hasStable || p.experimental != []) then [""] else [];
    var i := if p.internal != [] then CopiedSection("INTERNAL", p.internal) else [];
    var r := Reread(p, major);
    var st1 := State(r.(experimental := [], internal := []), false, false);
    var st2 := State(r.(internal := []), false, false);
    if p.hasStable {
      ReadStable(START, major, sorted);
    }
    assert Steps(START, a) == st1;
    ReadBlank(st1, p.hasStable && p.experimental != []);
    ReadMaybe(START, a, blank1, st1);
    if p.experimental != [] {
      ReadSection(st1, "EXPERIMENTAL", p.experimental);
    }
    ReadMaybe(START, a + blank1, e, st2);
    ReadBlank(st2, p.internal != [] && (p.hasStable || p.experimental != []));
    ReadMaybe(START, a + blank1 + e, blank2, st2);
    if p.internal != [] {
      ReadSection(st2, "INTERNAL", p.internal);
    }
    ReadMaybe(START, a + blank1 + e + blank2, i, State(r, false, false));
  }

  /** The file the script writes for a file and a major version. */
  ghost predicate IsRewritten(file: seq<string>, major: string, sorted: seq<string>, out: seq<string>)
  {
    && (Parse(file).hasStable ==> SortedOf(sorted, Parse(file).stable))
    && out == Layout(Parse(file), major, sorted)
  }

  lemma SortedFunctions(sorted: seq<string>, lines: set<string>)
    requires SortedOf(sorted, lines) && Functions(lines)
    ensures AllFunctions(sorted) && SetOf(sorted) == lines
  {
    assert forall k :: 0 <= k < |sorted| ==> sorted[k] in lines;
  }

  /**
   * Reading the written file gives back the EXPERIMENTAL and the INTERNAL lines of any file. It
   * gives back the stable lines exactly if the file has a stable section or no such lines, and
   * the stable section itself exactly if the major version is plain.
   */
  lemma RoundTrip(file: seq<string>, major: string, sorted: seq<string>, out: seq<string>)
    requires IsMajor(major) && IsRewritten(file, major, sorted, out)
    ensures var p, q := Parse(file), Parse(out);
            && q.experimental == p.experimental && q.internal == p.internal
            && (q.stable == p.stable <==> p.hasStable || p.stable == {})
            && (q.hasStable <==> p.hasStable && IsAscii(major))
            && (q == p <==> (p.hasStable ==> IsAscii(major)) && (p.hasStable || p.stable == {}))
  {
    hide Layout;
    ReadRewritten(file, major, sorted, out);
  }

  lemma ReadRewritten(file: seq<string>, major: string, sorted: seq<string>, out: seq<string>)
    requires IsMajor(major) && IsRewritten(file, major, sorted, out)
    ensures Parse(out) == Reread(Parse(file), major)
  {
    hide Layout, Steps, Verbatim, Functions, SortedOf, AllFunctions;
    ParserCollects(file);
    var p := Parse(file);
    if p.hasStable {
      SortedFunctions(sorted, p.stable);
    }
    ReadLayout(p, major, sorted);
  }

  /** Rewriting a file twice is the same as once, except for a stable section with odd digits. */
  lemma RewriteTwice(file: seq<string>, major: string, sorted: seq<string>, out: seq<string>,
      sorted': seq<string>, out': seq<string>)
    requires IsMajor(major) && IsRewritten(file, major, sorted, out) && IsRewritten(out, major, sorted', out')
    ensures out' == out <==> (Parse(file).hasStable ==> IsAscii(major))
  {
    hide Steps, SortedOf, AllPrinted, Parse;
    ReadRewritten(file, major, sorted, out);
    var p, q := Parse(file), Parse(out);
    if p.hasStable {
      if IsAscii(major) {
        SortedUnique(sorted, sorted', p.stable);
      } else {
        assert out[0] == "DPDK_" + major + " {";
        assert out[0][0] == 'D';
        if out' != [] {
          assert out'[0] == "EXPERIMENTAL {" || out'[0] == "INTERNAL {";
          assert out'[0][0] != 'D';
        }
      }
    }
  }

  /** A file with stable functions outside any stable section loses them. */
  lemma LostLines()
    ensures Parse(["foo;"]).stable == {"foo;"} && !Parse(["foo;"]).hasStable
    ensures Layout(Parse(["foo;"]), "20", []) == []
  {
    hide Steps, Step;
    StepsNone(START);
    assert [] + ["foo;"] == ["foo;"];
    StepsMore(START, [], "foo;");
    StepFoo();
  }

  /** A version that is accepted although its digits are not those of a section name. */
  const ODD_VERSION := "\U{0662}\U{0660}.0"

  /** Rewritten for it, a file loses its stable section. */
  lemma LostSection()
    ensures AbiMajor(ODD_VERSION) == "\U{0662}\U{0660}" && !IsAscii(AbiMajor(ODD_VERSION))
    ensures var file := ["DPDK_23 {", "\tlocal: *;", "};"];
            && Parse(file).hasStable
            && forall out :: IsRewritten(file, AbiMajor(ODD_VERSION), [], out) ==> !Parse(out).hasStable
  {
    var file, major := ["DPDK_23 {", "\tlocal: *;", "};"], AbiMajor(ODD_VERSION);
    var p := Parsed(true, {}, [], []);
    assert major == ODD_VERSION[..2] == "\U{0662}\U{0660}";
    assert !('0' <= major[0] <= '9');
    hide AbiMajor, IsDigit, OtherDigit, LongDigit, Steps;
    assert IsMajor("23") && IsAscii("23");
    assert "DPDK_" + "23" + " {" == "DPDK_23 {";
    assert StableSection("23", []) == file;
    assert file == Layout(p, "23", []);
    ReadLayout(p, "23", []);
    forall out | IsRewritten(file, major, [], out) ensures !Parse(out).hasStable {
      ReadRewritten(file, major, [], out);
    }
  }

  lemma StepFoo()
    ensures Step(START, "foo;") == START.(parsed := START.parsed.(stable := {"foo;"}))
  {
    hide Strip;
    var line := "foo;";
    FooLine(line);
    StripTab(line);
    FunctionLineIsNoOther(line);
  }

  lemma FooLine(line: string)
    requires line == "foo;"
    ensures IsFunctionLine(line) && Stripped(line)
  {
    SkipTo(line, 0, Spaces, 0);
    SkipTo(line, 0, Words, 3);
    SkipTo(line, 3, Spaces, 3);
    SkipTo(line, 4, Spaces, 4);
  }

  /** The script, for a map file and a version; it refuses other versions. */
  method RewriteMap(file: seq<string>, version: string) returns (out: seq<string>, ghost sorted: seq<string>)
    ensures AbiMajor(version) == "" ==> out == file
    ensures AbiMajor(version) != "" ==> IsRewritten(file, AbiMajor(version), sorted, out)
  {
    sorted := [];
    var major := AbiMajor(version);
    if major == "" {
      return file, [];
    }
    var p := ParseMapFile(file);
    ParserCollects(file);
    var f := new Out();
    sorted := f.Generate(p, major);
    out := f.lines;
  }
}
