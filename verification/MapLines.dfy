/**
 * The lines of a linker version map and the three regular expressions that
 * devtools/update_version_map_abi.py tells them apart with.
 */
module MapLines {

  /** White space as `strip` and `\s` see it. */
  predicate IsSpace(c: char)
  {
    var u := c as int;
    9 <= u <= 13 || 28 <= u <= 32 || u == 0x85 || u == 0xA0 || u == 0x1680 || 0x2000 <= u <= 0x200A
    || u == 0x2028 || u == 0x2029 || u == 0x202F || u == 0x205F || u == 0x3000
  }

  /** [a-zA-Z_0-9]. */
  predicate IsWord(c: char)
  {
    'a' <= c <= 'z' || 'A' <= c <= 'Z' || '0' <= c <= '9' || c == '_'
  }

  /** [a-zA-Z0-9_\.]. */
  predicate IsName(c: char)
  {
    IsWord(c) || c == '.'
  }

  datatype Class = Spaces | Words | Names

  predicate In(k: Class, c: char)
  {
    match k
    case Spaces => IsSpace(c)
    case Words => IsWord(c)
    case Names => IsName(c)
  }

  /** The end of the longest stretch of characters of a class from `i` on. */
  function Skip(s: string, i: nat, k: Class): (j: nat)
    requires i <= |s|
    ensures i <= j <= |s| && (j < |s| ==> !In(k, s[j]))
    ensures forall m :: i <= m < j ==> In(k, s[m])
    decreases |s| - i
  {
    if i < |s| && In(k, s[i]) then Skip(s, i + 1, k) else i
  }

  /** The stretch of a class is determined by its ends. */
  lemma {:induction false} SkipTo(s: string, i: nat, k: Class, j: nat)
    requires i <= j <= |s| && (j < |s| ==> !In(k, s[j])) && forall m :: i <= m < j ==> In(k, s[m])
    ensures Skip(s, i, k) == j
    decreases j - i
  {
    if i < j {
      SkipTo(s, i + 1, k, j);
    }
  }

  function StripRight(s: string): (t: string)
    ensures t <= s && (t != [] ==> !IsSpace(t[|t| - 1]))
    ensures s != [] && !IsSpace(s[|s| - 1]) ==> t == s
  {
    if s != [] && IsSpace(s[|s| - 1]) then StripRight(s[..|s| - 1]) else s
  }

  /** str.strip. */
  function Strip(s: string): (t: string)
  {
    StripRight(s[Skip(s, 0, Spaces)..])
  }

  /** No white space at either end. */
  ghost predicate Stripped(s: string)
  {
    s == [] || (!IsSpace(s[0]) && !IsSpace(s[|s| - 1]))
  }

  lemma StripStrips(s: string)
    ensures Stripped(Strip(s))
  {
    var t := s[Skip(s, 0, Spaces)..];
    if StripRight(t) != [] {
      assert StripRight(t)[0] == t[0];
    }
  }

  ghost predicate Blank(s: string)
  {
    forall c :: c in s ==> IsSpace(c)
  }

  /** Exactly the white space around a line is removed. */
  lemma StripExactly(before: string, s: string, after: string)
    requires Stripped(s) && Blank(before) && Blank(after)
    ensures Strip(before + s + after) == s
  {
    var t := before + s + after;
    if s == [] {
      assert forall m :: 0 <= m < |t| ==> t[m] in before || t[m] in after;
      SkipTo(t, 0, Spaces, |t|);
    } else {
      assert t[|before|] == s[0];
      SkipTo(t, 0, Spaces, |before|);
      assert t[|before|..] == s + after;
      RightBlanks(s, after);
    }
  }

  lemma {:induction false} RightBlanks(s: string, after: string)
    requires s != [] && !IsSpace(s[|s| - 1]) && Blank(after)
    ensures StripRight(s + after) == s
    decreases |after|
  {
    if after == [] {
      assert s + after == s;
    } else {
      var last := |after| - 1;
      assert after[last] in after && (s + after)[..|s| + last] == s + after[..last];
      RightBlanks(s, after[..last]);
    }
  }

  /** A stripped line survives being printed behind a tab and stripped again. */
  lemma StripTab(s: string)
    requires Stripped(s)
    ensures Strip("\t" + s) == s && Strip(s) == s
  {
    var t := "\t" + s;
    assert IsSpace('\t');
    SkipTo(s, 0, Spaces, 0);
    SkipTo(t, 0, Spaces, 1);
    assert t[1..] == s && s[0..] == s;
  }

  /** section_end_regex: `}`, perhaps the name of a parent, `;`. */
  predicate IsSectionEnd(s: string)
  {
    var i := Skip(s, 0, Spaces);
    i < |s| && s[i] == '}' && EndsAfterParent(s, i + 1)
  }

  predicate EndsAfterParent(s: string, i: nat)
    requires i <= |s|
  {
    var k := Skip(s, Skip(s, Skip(s, i, Spaces), Names), Spaces);
    k < |s| && s[k] == ';' && Skip(s, k + 1, Spaces) == |s|
  }

  /** section_begin_regex: the place of the name and whether the line matches. */
  predicate IsSectionBegin(s: string)
  {
    var i := Skip(s, 0, Spaces);
    var j := Skip(s, i, Names);
    var k := Skip(s, j, Spaces);
    i < j && k < |s| && s[k] == '{' && Skip(s, k + 1, Spaces) == |s|
  }

  function SectionName(s: string): (name: string)
  {
    var i := Skip(s, 0, Spaces);
    s[i..Skip(s, i, Names)]
  }

  /** func_line_regex: a name, `;`, perhaps a comment of at least one character. */
  predicate IsFunctionLine(s: string)
  {
    var i := Skip(s, 0, Spaces);
    var j := Skip(s, i, Words);
    var k := Skip(s, j, Spaces);
    i < j && k < |s| && s[k] == ';'
    && var l := Skip(s, k + 1, Spaces); l == |s| || (s[l] == '#' && l + 1 < |s|)
  }

  /** The first character that is neither white space nor part of a leading name. */
  lemma FunctionLineIsNoOther(s: string)
    requires IsFunctionLine(s)
    ensures s != [] && !IsSectionEnd(s) && !IsSectionBegin(s)
  {
    var i := Skip(s, 0, Spaces);
    var j := Skip(s, i, Words);
    assert IsWord(s[i]);
  }

  /** The header the script prints, for a name made of `n`. */
  lemma HeaderIsBegin(n: string)
    requires n != [] && forall c :: c in n ==> IsName(c)
    ensures IsSectionBegin(n + " {") && SectionName(n + " {") == n && !IsSectionEnd(n + " {") && Stripped(n + " {")
  {
    var s := n + " {";
    assert IsSpace(' ') && !IsSpace('{') && !IsName(' ');
    assert IsName(s[0]) && s[0] in n;
    SkipTo(s, 0, Spaces, 0);
    SkipTo(s, 0, Names, |n|);
    SkipTo(s, |n|, Spaces, |n| + 1);
    assert s[..|n|] == n;
  }

  /** With any other character in the name it is no line the script knows. */
  lemma HeaderIsNothing(n: string, d: nat)
    requires 0 < d < |n| && !IsSpace(n[d]) && !IsName(n[d]) && n[d] != '{' && n[d] != ';'
    requires forall m :: 0 <= m < d ==> IsWord(n[m])
    ensures var s := n + " {"; Stripped(s) && !IsSectionBegin(s) && !IsSectionEnd(s) && !IsFunctionLine(s)
  {
    var s := n + " {";
    assert !IsSpace('{');
    assert s[0] == n[0];
    SkipTo(s, 0, Spaces, 0);
    SkipTo(s, 0, Names, d);
    SkipTo(s, 0, Words, d);
    SkipTo(s, d, Spaces, d);
  }

  lemma GlobalLine()
    ensures var s := "global:"; Stripped(s) && !IsSectionEnd(s) && !IsSectionBegin(s) && !IsFunctionLine(s)
  {
    var s := "global:";
    SkipTo(s, 0, Spaces, 0);
    SkipTo(s, 0, Names, 6);
    SkipTo(s, 0, Words, 6);
    SkipTo(s, 6, Spaces, 6);
  }

  lemma LocalLine()
    ensures var s := "local: *;"; Stripped(s) && !IsSectionEnd(s) && !IsSectionBegin(s) && !IsFunctionLine(s)
  {
    var s := "local: *;";
    SkipTo(s, 0, Spaces, 0);
    SkipTo(s, 0, Names, 5);
    SkipTo(s, 0, Words, 5);
    SkipTo(s, 5, Spaces, 5);
  }

  lemma ClosingLine()
    ensures Stripped("};") && IsSectionEnd("};")
  {
    var s := "};";
    SkipTo(s, 0, Spaces, 0);
    SkipTo(s, 1, Spaces, 1);
    SkipTo(s, 1, Names, 1);
  }

  /** All characters of s[i..j] are of a class: what `*` after the class can match. */
  ghost predicate Stretch(s: string, i: nat, j: nat, k: Class)
  {
    i <= j <= |s| && forall m :: i <= m < j ==> In(k, s[m])
  }

  /** func_line_regex, read as a grammar. */
  ghost predicate FunctionGrammar(s: string, i: nat, j: nat, k: nat, l: nat)
  {
    && Stretch(s, 0, i, Spaces) && i < j && Stretch(s, i, j, Words) && Stretch(s, j, k, Spaces)
    && k < |s| && s[k] == ';' && Stretch(s, k + 1, l, Spaces)
    && (l == |s| || (s[l] == '#' && l + 1 < |s|))
  }

  lemma FunctionScan(s: string, i: nat, j: nat, k: nat, l: nat)
    requires FunctionGrammar(s, i, j, k, l)
    ensures IsFunctionLine(s)
  {
    assert In(Words, s[i]);
    SkipTo(s, 0, Spaces, i);
    SkipTo(s, i, Words, j);
    SkipTo(s, j, Spaces, k);
    SkipTo(s, k + 1, Spaces, l);
  }

  /** Scanning without going back finds a match exactly when there is one. */
  lemma FunctionLineExactly(s: string)
    ensures IsFunctionLine(s) <==> exists i: nat, j: nat, k: nat, l: nat :: FunctionGrammar(s, i, j, k, l)
  {
    if IsFunctionLine(s) {
      var i := Skip(s, 0, Spaces);
      var j := Skip(s, i, Words);
      var k := Skip(s, j, Spaces);
      assert FunctionGrammar(s, i, j, k, Skip(s, k + 1, Spaces));
    }
    forall i: nat, j: nat, k: nat, l: nat | FunctionGrammar(s, i, j, k, l) ensures IsFunctionLine(s) {
      FunctionScan(s, i, j, k, l);
    }
  }

  /** section_begin_regex, read as a grammar. */
  ghost predicate BeginGrammar(s: string, i: nat, j: nat, k: nat)
  {
    && Stretch(s, 0, i, Spaces) && i < j && Stretch(s, i, j, Names) && Stretch(s, j, k, Spaces)
    && k < |s| && s[k] == '{' && Stretch(s, k + 1, |s|, Spaces)
  }

  lemma BeginScan(s: string, i: nat, j: nat, k: nat)
    requires BeginGrammar(s, i, j, k)
    ensures IsSectionBegin(s) && SectionName(s) == s[i..j]
  {
    assert In(Names, s[i]);
    SkipTo(s, 0, Spaces, i);
    SkipTo(s, i, Names, j);
    SkipTo(s, j, Spaces, k);
    SkipTo(s, k + 1, Spaces, |s|);
  }

  lemma SectionBeginExactly(s: string)
    ensures IsSectionBegin(s) <==> exists i: nat, j: nat, k: nat :: BeginGrammar(s, i, j, k)
    ensures forall i: nat, j: nat, k: nat :: BeginGrammar(s, i, j, k) ==> SectionName(s) == s[i..j]
  {
    if IsSectionBegin(s) {
      var i := Skip(s, 0, Spaces);
      var j := Skip(s, i, Names);
      assert BeginGrammar(s, i, j, Skip(s, j, Spaces));
    }
    forall i: nat, j: nat, k: nat | BeginGrammar(s, i, j, k) ensures IsSectionBegin(s) && SectionName(s) == s[i..j] {
      BeginScan(s, i, j, k);
    }
  }

  /** section_end_regex, read as a grammar; the parent may be missing. */
  ghost predicate EndGrammar(s: string, i: nat, a: nat, b: nat, k: nat)
  {
    && Stretch(s, 0, i, Spaces) && i < |s| && s[i] == '}' && Stretch(s, i + 1, a, Spaces)
    && Stretch(s, a, b, Names) && Stretch(s, b, k, Spaces)
    && k < |s| && s[k] == ';' && Stretch(s, k + 1, |s|, Spaces)
  }

  lemma EndScan(s: string, i: nat, a: nat, b: nat, k: nat)
    requires EndGrammar(s, i, a, b, k)
    ensures IsSectionEnd(s)
  {
    hide EndsAfterParent;
    SkipTo(s, 0, Spaces, i);
    ParentScan(s, i + 1, a, b, k);
  }

  lemma ParentScan(s: string, i: nat, a: nat, b: nat, k: nat)
    requires Stretch(s, i, a, Spaces) && Stretch(s, a, b, Names) && Stretch(s, b, k, Spaces)
    requires k < |s| && s[k] == ';' && Stretch(s, k + 1, |s|, Spaces)
    ensures EndsAfterParent(s, i)
  {
    SkipTo(s, k + 1, Spaces, |s|);
    if a < b {
      assert In(Names, s[a]);
      SkipTo(s, i, Spaces, a);
      SkipTo(s, a, Names, b);
      SkipTo(s, b, Spaces, k);
    } else {
      SkipTo(s, i, Spaces, k);
      SkipTo(s, k, Names, k);
      SkipTo(s, k, Spaces, k);
    }
  }

  lemma SectionEndExactly(s: string)
    ensures IsSectionEnd(s) <==> exists i: nat, a: nat, b: nat, k: nat :: EndGrammar(s, i, a, b, k)
  {
    if IsSectionEnd(s) {
      var i := Skip(s, 0, Spaces);
      var a := Skip(s, i + 1, Spaces);
      var b := Skip(s, a, Names);
      assert EndGrammar(s, i, a, b, Skip(s, b, Spaces));
    }
    forall i: nat, a: nat, b: nat, k: nat | EndGrammar(s, i, a, b, k) ensures IsSectionEnd(s) {
      EndScan(s, i, a, b, k);
    }
  }
}
