/**
  The indentation converter `convert_indent`: with `toTabs` every
  occurrence of four spaces found by a left-to-right, non-overlapping
  scan becomes one tab, otherwise every tab becomes four spaces. The
  substitution is purely lexical: it applies anywhere in the text, not
  only at line starts.
 */
module IndentConverter {
  import opened StrReplace

  type Text = seq<char>

  const Tab: char := '\t'
  const Space: char := ' '
  const FourSpaces: Text := [Space, Space, Space, Space]

  /** `n` copies of `c`. */
  function Repeat(c: char, n: nat): (r: Text)
    ensures |r| == n
    ensures forall i :: 0 <= i < n ==> r[i] == c
  {
    if n == 0 then [] else [c] + Repeat(c, n - 1)
  }

  /** The pattern that `ConvertIndent` replaces in the given direction. */
  function Pattern(toTabs: bool): (p: Text)
    ensures |p| > 0
  {
    if toTabs then FourSpaces else [Tab]
  }

  /** `convert_indent(text, to_tabs)`. */
  function ConvertIndent(text: Text, toTabs: bool): (r: Text)
    ensures toTabs ==> r == ContractSpaces(text)
    ensures !toTabs ==> r == ExpandTabs(text)
  {
    if toTabs then
      ToTabsIsContractSpaces(text);
      ReplaceAll(text, FourSpaces, [Tab])
    else
      ToSpacesIsExpandTabs(text);
      ReplaceAll(text, [Tab], FourSpaces)
  }

  // ---------------------------------------------------------------------
  // Tabs to spaces

  /** Reference definition: each character maps on its own, a tab to four spaces. */
  function ExpandTabs(s: Text): Text
  {
    if s == [] then []
    else (if s[0] == Tab then FourSpaces else [s[0]]) + ExpandTabs(s[1..])
  }

  lemma {:induction false} ToSpacesIsExpandTabs(s: Text)
    ensures ReplaceAll(s, [Tab], FourSpaces) == ExpandTabs(s)
    decreases |s|
  {
    if s != [] {
      ToSpacesIsExpandTabs(s[1..]);
    }
  }

  lemma {:induction false} ExpandTabsAppend(a: Text, b: Text)
    ensures ExpandTabs(a + b) == ExpandTabs(a) + ExpandTabs(b)
    decreases |a|
  {
    if a != [] {
      ExpandTabsAppend(a[1..], b);
      calc {
        ExpandTabs(a + b);
        { assert (a + b)[0] == a[0] && (a + b)[1..] == a[1..] + b; }
        (if a[0] == Tab then FourSpaces else [a[0]]) + ExpandTabs(a[1..] + b);
      }
    } else {
      assert a + b == b;
    }
  }

  /** Converting to spaces leaves no tab in the text. */
  lemma {:induction false} ToSpacesRemovesTabs(s: Text)
    ensures Tab !in ConvertIndent(s, false)
    decreases |s|
  {
    if s != [] {
      ToSpacesRemovesTabs(s[1..]);
    }
  }

  /** Converting to spaces grows the text by three characters per tab. */
  lemma {:induction false} ToSpacesLength(s: Text)
    ensures |ConvertIndent(s, false)| == |s| + 3 * multiset(s)[Tab]
    decreases |s|
  {
    if s != [] {
      ToSpacesLength(s[1..]);
      assert s == [s[0]] + s[1..];
    }
  }

  /** `s` with every character of `drop` removed, the others kept in order. */
  function Erase(s: Text, drop: set<char>): Text
  {
    if s == [] then []
    else (if s[0] in drop then [] else [s[0]]) + Erase(s[1..], drop)
  }

  /**
    Converting to spaces keeps every other character in its order: erasing
    the spaces from the output gives the input without its tabs and spaces.
   */
  lemma {:induction false} ToSpacesKeepsOthers(s: Text)
    ensures Erase(ConvertIndent(s, false), {Space}) == Erase(s, {Tab, Space})
    decreases |s|
  {
    if s != [] {
      ToSpacesKeepsOthers(s[1..]);
      var head := if s[0] == Tab then FourSpaces else [s[0]];
      EraseAppend(head, ExpandTabs(s[1..]), {Space});
      if s[0] == Tab {
        assert FourSpaces == Repeat(Space, 4);
        EraseRepeat(Space, 4, {Space});
      }
    }
  }

  lemma {:induction false} EraseRepeat(c: char, n: nat, drop: set<char>)
    requires c in drop
    ensures Erase(Repeat(c, n), drop) == []
  {
    if n > 0 {
      EraseRepeat(c, n - 1, drop);
    }
  }

  lemma {:induction false} EraseAppend(a: Text, b: Text, drop: set<char>)
    ensures Erase(a + b, drop) == Erase(a, drop) + Erase(b, drop)
    decreases |a|
  {
    if a != [] {
      EraseAppend(a[1..], b, drop);
      calc {
        Erase(a + b, drop);
        { assert (a + b)[0] == a[0] && (a + b)[1..] == a[1..] + b; }
        (if a[0] in drop then [] else [a[0]]) + Erase(a[1..] + b, drop);
      }
    } else {
      assert a + b == b;
    }
  }

  // ---------------------------------------------------------------------
  // Spaces to tabs

  /** Length of the run of spaces that `s` starts with. */
  function LeadingSpaces(s: Text): (n: nat)
    ensures n <= |s|
    ensures forall i :: 0 <= i < n ==> s[i] == Space
    ensures n < |s| ==> s[n] != Space
  {
    if s != [] && s[0] == Space then 1 + LeadingSpaces(s[1..]) else 0
  }

  /**
    Reference definition: every maximal run of `n` spaces becomes `n / 4`
    tabs followed by the `n % 4` spaces left over; other characters stay.
   */
  function ContractSpaces(s: Text): Text
    decreases |s|
  {
    if s == [] then []
    else if s[0] != Space then [s[0]] + ContractSpaces(s[1..])
    else
      var n := LeadingSpaces(s);
      Repeat(Tab, n / 4) + Repeat(Space, n % 4) + ContractSpaces(s[n..])
  }

  /** Text shorter than four characters is left as it is. */
  lemma ToTabsShort(s: Text)
    requires |s| < 4
    ensures ReplaceAll(s, FourSpaces, [Tab]) == s
  {
  }

  /** A run of fewer than four spaces followed by a non-space is kept as it is. */
  lemma {:induction false} ToTabsShortRun(n: nat, t: Text)
    requires n < 4
    requires t == [] || t[0] != Space
    ensures ReplaceAll(Repeat(Space, n) + t, FourSpaces, [Tab])
         == Repeat(Space, n) + ReplaceAll(t, FourSpaces, [Tab])
  {
    var s := Repeat(Space, n) + t;
    if n == 0 {
      assert s == t;
    } else if |s| < 4 {
      ToTabsShort(t);
    } else {
      var rest := Repeat(Space, n - 1) + t;
      assert Repeat(Space, n) == [Space] + Repeat(Space, n - 1);
      assert s == [Space] + rest;
      assert s[..4][n] == t[0];
      ReplaceAllSkip(Space, rest, FourSpaces, [Tab]);
      ToTabsShortRun(n - 1, t);
      SeqAssoc3([Space], Repeat(Space, n - 1), ReplaceAll(t, FourSpaces, [Tab]));
    }
  }

  /**
    A run of `4 * q + r` spaces (`r < 4`) followed by a non-space becomes
    `q` tabs followed by `r` spaces.
   */
  lemma {:induction false} ToTabsGroups(q: nat, r: nat, t: Text)
    requires r < 4
    requires t == [] || t[0] != Space
    ensures ReplaceAll(Repeat(Space, 4 * q + r) + t, FourSpaces, [Tab])
         == Repeat(Tab, q) + Repeat(Space, r) + ReplaceAll(t, FourSpaces, [Tab])
  {
    var rest := ReplaceAll(t, FourSpaces, [Tab]);
    if q == 0 {
      calc {
        ReplaceAll(Repeat(Space, 4 * q + r) + t, FourSpaces, [Tab]);
        { assert 4 * q + r == r; }
        ReplaceAll(Repeat(Space, r) + t, FourSpaces, [Tab]);
        { ToTabsShortRun(r, t); }
        Repeat(Space, r) + rest;
        { assert Repeat(Tab, q) == []; }
        Repeat(Tab, q) + Repeat(Space, r) + rest;
      }
    } else {
      var m := 4 * (q - 1) + r;
      var tabs, spaces := Repeat(Tab, q - 1), Repeat(Space, r);
      calc {
        ReplaceAll(Repeat(Space, 4 * q + r) + t, FourSpaces, [Tab]);
        { assert 4 * q + r == m + 4; }
        ReplaceAll(Repeat(Space, m + 4) + t, FourSpaces, [Tab]);
        { ToTabsFirstGroup(m, t); }
        [Tab] + ReplaceAll(Repeat(Space, m) + t, FourSpaces, [Tab]);
        { ToTabsGroups(q - 1, r, t); }
        [Tab] + (tabs + spaces + rest);
        { SeqAssoc([Tab], tabs, spaces, rest); }
        [Tab] + tabs + spaces + rest;
        { assert Repeat(Tab, q) == [Tab] + tabs; }
        Repeat(Tab, q) + spaces + rest;
      }
    }
  }

  /** Regrouping a concatenation. */
  lemma SeqAssoc3(a: Text, b: Text, c: Text)
    ensures a + (b + c) == a + b + c
  {
  }

  /** Regrouping a concatenation of four parts. */
  lemma SeqAssoc(a: Text, b: Text, c: Text, d: Text)
    ensures a + (b + c + d) == a + b + c + d
  {
  }

  /** A run of `n` spaces followed by a non-space is replaced as a block. */
  lemma ToTabsRun(n: nat, t: Text)
    requires t == [] || t[0] != Space
    ensures ReplaceAll(Repeat(Space, n) + t, FourSpaces, [Tab])
         == Repeat(Tab, n / 4) + Repeat(Space, n % 4) + ReplaceAll(t, FourSpaces, [Tab])
  {
    RunSplit(n);
    ToTabsGroups(n / 4, n % 4, t);
  }

  /** The first four spaces of a longer run become one tab. */
  lemma ToTabsFirstGroup(m: nat, t: Text)
    ensures ReplaceAll(Repeat(Space, m + 4) + t, FourSpaces, [Tab])
         == [Tab] + ReplaceAll(Repeat(Space, m) + t, FourSpaces, [Tab])
  {
    var rest := Repeat(Space, m) + t;
    SplitRepeat(Space, 4, m);
    assert Repeat(Space, 4) == FourSpaces;
    assert Repeat(Space, m + 4) + t == FourSpaces + rest;
    ReplaceAllPrefix(FourSpaces, rest, [Tab]);
  }

  /** A run splits into its whole groups of four and what is left over. */
  lemma RunSplit(n: nat)
    ensures 4 * (n / 4) + n % 4 == n && n % 4 < 4
  {
  }

  lemma {:induction false} ToTabsIsContractSpaces(s: Text)
    ensures ReplaceAll(s, FourSpaces, [Tab]) == ContractSpaces(s)
    decreases |s|
  {
    if s == [] {
    } else if s[0] != Space {
      ToTabsIsContractSpaces(s[1..]);
      if |s| < 4 {
        ToTabsShort(s[1..]);
      } else {
        assert s[..4] != FourSpaces;
      }
    } else {
      var n := LeadingSpaces(s);
      LeadingSpacesSplit(s);
      ToTabsRun(n, s[n..]);
      ToTabsIsContractSpaces(s[n..]);
    }
  }

  /**
    Invariant of the left-to-right scan: the output has no four-space run,
    starts with at most three spaces, and keeps a leading run shorter than
    four as it was.
   */
  lemma {:induction false} ToTabsScan(s: Text)
    ensures var r := ReplaceAll(s, FourSpaces, [Tab]);
      !Occurs(FourSpaces, r) && LeadingSpaces(r) <= 3
      && (LeadingSpaces(s) < 4 ==> LeadingSpaces(r) == LeadingSpaces(s))
    decreases |s|
  {
    var r := ReplaceAll(s, FourSpaces, [Tab]);
    if |s| < 4 {
    } else if s[..4] == FourSpaces {
      ToTabsScan(s[4..]);
      LeadingSpacesPrefix(s, 4);
    } else {
      ToTabsScan(s[1..]);
      var r' := ReplaceAll(s[1..], FourSpaces, [Tab]);
      assert r == [s[0]] + r';
      LeadingSpacesPrefix(s, 4);
      if |r| >= 4 {
        LeadingSpacesPrefix(r, 4);
      }
    }
  }

  /** A text is its leading run of spaces followed by the rest. */
  lemma LeadingSpacesSplit(s: Text)
    ensures s == Repeat(Space, LeadingSpaces(s)) + s[LeadingSpaces(s)..]
  {
    var n := LeadingSpaces(s);
    assert s[..n] == Repeat(Space, n);
  }

  /** `s` starts with at least `m` spaces exactly when its first `m` characters are spaces. */
  lemma {:induction false} LeadingSpacesPrefix(s: Text, m: nat)
    requires m <= |s|
    ensures LeadingSpaces(s) >= m <==> s[..m] == Repeat(Space, m)
    decreases m
  {
    if m > 0 {
      assert Repeat(Space, m) == [Space] + Repeat(Space, m - 1);
      assert s[..m] == [s[0]] + s[1..][..m - 1];
      if s[0] == Space {
        LeadingSpacesPrefix(s[1..], m - 1);
      }
    }
  }

  /** Converting to tabs leaves no run of four spaces in the text. */
  lemma ToTabsNoFourSpaces(s: Text)
    ensures !Occurs(FourSpaces, ConvertIndent(s, true))
  {
    ToTabsScan(s);
  }

  /** Converting to tabs shrinks the text by three characters per tab it writes. */
  lemma ToTabsLength(s: Text)
    ensures |ConvertIndent(s, true)| == |s| - 3 * MatchCount(s, FourSpaces)
  {
    ReplaceAllLength(s, FourSpaces, [Tab]);
  }

  /**
    Converting to tabs trades length for tabs one for one: each group of
    four spaces it replaces removes three characters and adds one tab.
   */
  lemma ToTabsTabBalance(s: Text)
    ensures var r := ConvertIndent(s, true);
      |r| + 3 * multiset(r)[Tab] == |s| + 3 * multiset(s)[Tab]
  {
    ContractTabBalance(s);
  }

  /** `ToTabsTabBalance`, by induction along the replacement scan. */
  lemma {:induction false} ContractTabBalance(s: Text)
    ensures var r := ReplaceAll(s, FourSpaces, [Tab]);
      |r| + 3 * multiset(r)[Tab] == |s| + 3 * multiset(s)[Tab]
    decreases |s|
  {
    if |s| < 4 {
    } else if s[..4] == FourSpaces {
      var t := s[4..];
      ContractTabBalance(t);
      TabCountAppend(FourSpaces, t);
      TabCountAppend([Tab], ReplaceAll(t, FourSpaces, [Tab]));
      assert s == FourSpaces + t;
    } else {
      var t := s[1..];
      ContractTabBalance(t);
      TabCountAppend([s[0]], t);
      TabCountAppend([s[0]], ReplaceAll(t, FourSpaces, [Tab]));
      assert s == [s[0]] + t;
    }
  }

  /** Tabs in a concatenation are the tabs of its parts. */
  lemma TabCountAppend(a: Text, b: Text)
    ensures multiset(a + b)[Tab] == multiset(a)[Tab] + multiset(b)[Tab]
  {
    assert multiset(a + b) == multiset(a) + multiset(b);
  }

  // ---------------------------------------------------------------------
  // Both directions

  /**
    The text comes back unchanged exactly when there is nothing to convert:
    no tab when converting to spaces, no four-space run when converting to tabs.
   */
  lemma UnchangedIffNothingToConvert(s: Text, toTabs: bool)
    ensures ConvertIndent(s, toTabs) == s <==> !Occurs(Pattern(toTabs), s)
  {
    if toTabs {
      ReplaceAllUnchangedIff(s, FourSpaces, [Tab]);
    } else {
      ReplaceAllUnchangedIff(s, [Tab], FourSpaces);
    }
  }

  /** Converting to spaces changes nothing exactly when the text has no tab. */
  lemma ToSpacesUnchangedIffNoTab(s: Text)
    ensures ConvertIndent(s, false) == s <==> Tab !in s
  {
    UnchangedIffNothingToConvert(s, false);
    OccursSingle(Tab, s);
  }

  /** Text without spaces survives converting to spaces and back to tabs. */
  lemma RoundTripWithoutSpaces(s: Text)
    requires Space !in s
    ensures ConvertIndent(ConvertIndent(s, false), true) == s
  {
    ContractExpandWithoutSpaces(s);
  }

  lemma {:induction false} ContractExpandWithoutSpaces(s: Text)
    requires Space !in s
    ensures ReplaceAll(ExpandTabs(s), FourSpaces, [Tab]) == s
    decreases |s|
  {
    if s != [] {
      var t := ExpandTabs(s[1..]);
      ContractExpandWithoutSpaces(s[1..]);
      if s[0] == Tab {
        ReplaceAllPrefix(FourSpaces, t, [Tab]);
      } else {
        var u := [s[0]] + t;
        assert |u| >= 4 ==> u[..4][0] != FourSpaces[0];
        ReplaceAllSkip(s[0], t, FourSpaces, [Tab]);
      }
      assert s == [s[0]] + s[1..];
    }
  }

  lemma {:induction false} ExpandRepeat(c: char, n: nat)
    requires c != Tab
    ensures ExpandTabs(Repeat(c, n)) == Repeat(c, n)
  {
    if n > 0 {
      ExpandRepeat(c, n - 1);
    }
  }

  lemma {:induction false} ExpandRepeatTabs(q: nat)
    ensures ExpandTabs(Repeat(Tab, q)) == Repeat(Space, 4 * q)
  {
    if q > 0 {
      ExpandRepeatTabs(q - 1);
      assert Repeat(Space, 4 * q) == FourSpaces + Repeat(Space, 4 * (q - 1)) by {
        SplitRepeat(Space, 4, 4 * (q - 1));
      }
    }
  }

  lemma SplitRepeat(c: char, a: nat, b: nat)
    ensures Repeat(c, a + b) == Repeat(c, a) + Repeat(c, b)
  {
    assert Repeat(c, a + b) == Repeat(c, a) + Repeat(c, b);
  }

  /** Text without tabs survives converting to tabs and back to spaces. */
  lemma RoundTripWithoutTabs(s: Text)
    requires Tab !in s
    ensures ConvertIndent(ConvertIndent(s, true), false) == s
  {
    ExpandContractWithoutTabs(s);
  }

  lemma {:induction false} ExpandContractWithoutTabs(s: Text)
    requires Tab !in s
    ensures ExpandTabs(ContractSpaces(s)) == s
    decreases |s|
  {
    if s == [] {
    } else if s[0] != Space {
      assert Tab !in s[1..];
      calc {
        ExpandTabs(ContractSpaces(s));
        ExpandTabs([s[0]] + ContractSpaces(s[1..]));
        { ExpandTabsAppend([s[0]], ContractSpaces(s[1..])); }
        [s[0]] + ExpandTabs(ContractSpaces(s[1..]));
        { ExpandContractWithoutTabs(s[1..]); }
        [s[0]] + s[1..];
        s;
      }
    } else {
      var n := LeadingSpaces(s);
      assert Tab !in s[n..];
      calc {
        ExpandTabs(ContractSpaces(s));
        ExpandTabs(Repeat(Tab, n / 4) + Repeat(Space, n % 4) + ContractSpaces(s[n..]));
        { ExpandContractedRun(n, ContractSpaces(s[n..])); }
        Repeat(Space, n) + ExpandTabs(ContractSpaces(s[n..]));
        { ExpandContractWithoutTabs(s[n..]); }
        Repeat(Space, n) + s[n..];
        { LeadingSpacesSplit(s); }
        s;
      }
    }
  }

  /** Expanding the tabs and spaces a run of `n` spaces was contracted to gives the run back. */
  lemma ExpandContractedRun(n: nat, rest: Text)
    ensures ExpandTabs(Repeat(Tab, n / 4) + Repeat(Space, n % 4) + rest)
         == Repeat(Space, n) + ExpandTabs(rest)
  {
    var tabs, spaces := Repeat(Tab, n / 4), Repeat(Space, n % 4);
    ExpandTabsAppend(tabs + spaces, rest);
    ExpandTabsAppend(tabs, spaces);
    ExpandRepeatTabs(n / 4);
    ExpandRepeat(Space, n % 4);
    SplitRepeat(Space, 4 * (n / 4), n % 4);
    RunSplit(n);
  }

  /** Tabs and spaces mixed: converting to spaces and back does not restore the text. */
  lemma ToSpacesThenTabsIsLossy()
    ensures ConvertIndent(ConvertIndent("   \t", false), true) == "\t   "
  {
    MixedRoundTrip("   \t");
  }

  /** `ToSpacesThenTabsIsLossy`, with the text bound to a name. */
  lemma MixedRoundTrip(text: Text)
    requires text == "   \t"
    ensures ConvertIndent(ConvertIndent(text, false), true) == "\t   "
  {
    ExampleMixedExpanded();
    ReplaceAllPrefix(FourSpaces, "   ", [Tab]);
    ToTabsShort("   ");
  }

  lemma ExampleMixedExpanded()
    ensures ExpandTabs("   \t") == FourSpaces + "   "
  {
  }

  /** A tab already present: converting to tabs and back does not restore the text. */
  lemma ToTabsThenSpacesIsLossy()
    ensures ConvertIndent(ConvertIndent("\t", true), false) == "    "
  {
  }

  lemma ExampleEmpty()
    ensures ConvertIndent("", true) == "" && ConvertIndent("", false) == ""
  {
  }

  lemma ExampleFourSpaces()
    ensures ConvertIndent("    ", true) == "\t"
  {
    assert "    " == FourSpaces + [];
    ReplaceAllPrefix(FourSpaces, [], [Tab]);
  }

  lemma ExampleEightSpaces()
    ensures ConvertIndent("        ", true) == "\t\t"
  {
    assert "        " == FourSpaces + FourSpaces;
    ReplaceAllPrefix(FourSpaces, FourSpaces, [Tab]);
    ExampleFourSpaces();
  }

  lemma ExampleFiveSpaces()
    ensures ConvertIndent("     ", true) == "\t "
  {
    assert "     " == FourSpaces + " ";
    ReplaceAllPrefix(FourSpaces, " ", [Tab]);
  }

  lemma ExampleThreeSpaces()
    ensures ConvertIndent("   ", true) == "   "
  {
  }

  lemma ExampleTab()
    ensures ConvertIndent("\t", false) == "    "
  {
  }

  /** Two indented lines, tabs to spaces. */
  lemma ExampleFileToSpaces()
    ensures ConvertIndent("\tfoo\n\t\tbar\n", false) == "    foo\n        bar\n"
  {
    FileToSpaces("\tfoo\n\t\tbar\n");
  }

  /** `ExampleFileToSpaces`, with the text bound to a name. */
  lemma FileToSpaces(text: Text)
    requires text == "\tfoo\n\t\tbar\n"
    ensures ConvertIndent(text, false) == "    foo\n        bar\n"
  {
    calc {
      ConvertIndent(text, false);
      ExpandTabs(text);
      { assert text == "\tfoo\n" + "\t\tbar\n"; }
      ExpandTabs("\tfoo\n" + "\t\tbar\n");
      { ExpandTabsAppend("\tfoo\n", "\t\tbar\n"); }
      ExpandTabs("\tfoo\n") + ExpandTabs("\t\tbar\n");
      { ExampleLineOne(); ExampleLineTwo(); }
      "    foo\n" + "        bar\n";
    }
  }

  lemma ExampleLineOne()
    ensures ExpandTabs("\tfoo\n") == "    foo\n"
  {
  }

  lemma ExampleLineTwo()
    ensures ExpandTabs("\t\tbar\n") == "        bar\n"
  {
  }

  /** One indented line, spaces to tabs. */
  lemma ExampleFileToTabs()
    ensures ConvertIndent("    foo\n", true) == "\tfoo\n"
  {
    FileToTabs("    foo\n");
  }

  /** `ExampleFileToTabs`, with the text bound to a name. */
  lemma FileToTabs(text: Text)
    requires text == "    foo\n"
    ensures ConvertIndent(text, true) == "\tfoo\n"
  {
    assert text == Repeat(Space, 4) + "foo\n";
    ToTabsRun(4, "foo\n");
    assert ReplaceAll("foo\n", FourSpaces, [Tab]) == "foo\n";
  }
}
