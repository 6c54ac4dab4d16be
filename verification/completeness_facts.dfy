/** Worked documents for the completeness checker: a section found at a
    `## ` heading, a placeholder body, the em-dash body on which the
    placeholder list as written and as intended disagree, and a whole
    handoff with its four sections in order. */
module CompletenessFacts {
  import opened Text
  import opened Seqs
  import opened Completeness

  /** The level of a `## ` heading is two. */
  lemma LevelTwo(title: string)
    ensures LeadingHashes("## " + title) == 2
  {
    var s := "## " + title;
    assert s[0] == '#' && s[1] == '#' && s[2] == ' ';
    assert s[1..][1..] == s[2..];
  }

  /** No line is a heading for the lower-cased name. */
  predicate NoHeading(xs: seq<string>, lowerName: string) {
    NoneOf(xs, HeadingTest(lowerName))
  }

  /** No line ends a level-two section. */
  predicate Unbroken(body: seq<string>) {
    NoneOf(body, EndTest(2))
  }

  lemma HeadingFoundAt(pre: seq<string>, h: string, rest: seq<string>, lowerName: string)
    requires IsSectionHeading(h, lowerName)
    requires NoHeading(pre, lowerName)
    ensures FindHeading(pre + [h] + rest, lowerName) == Some(|pre|)
  {
    var lines := pre + [h] + rest;
    var test := HeadingTest(lowerName);
    forall i | 0 <= i < |pre|
      ensures !test(lines[i])
    {
      assert lines[i] == pre[i];
    }
    assert test(lines[|pre|]);
    FirstWhereUnique(lines, test, |pre|);
  }

  lemma BodyOf(body: seq<string>, post: seq<string>, level: nat)
    requires NoneOf(body, EndTest(level))
    requires post == [] || EndTest(level)(post[0])
    ensures Body(body + post, level) == Map(Trim, body)
  {
    var rest := body + post;
    var test := EndTest(level);
    forall j | 0 <= j < |body|
      ensures !test(rest[j])
    {
      assert rest[j] == body[j];
    }
    if post != [] {
      assert test(rest[|body|]);
    }
    FirstWhereUnique(rest, test, |body|);
    assert rest[..|body|] == body;
  }

  /** The verdict on a document whose first heading for the section is `h`. */
  lemma FindSectionAt(pre: seq<string>, h: string, rest: seq<string>, name: string, placeholders: seq<string>)
    requires IsSectionHeading(h, ToLower(name))
    requires NoHeading(pre, ToLower(name))
    ensures FindSectionWith(pre + [h] + rest, name, placeholders)
            == Classify(SectionText(Body(rest, LeadingHashes(Trim(h)))), placeholders)
  {
    var lines := pre + [h] + rest;
    HeadingFoundAt(pre, h, rest, ToLower(name));
    assert lines[|pre|] == h;
    assert lines[|pre| + 1..] == rest;
  }

  /** A document whose first heading for `name` is `## name`, followed by
      lines that do not end a level-two section and then either the end or
      a line that does: the verdict is about exactly those lines. */
  lemma SectionWithBody(pre: seq<string>, name: string, body: seq<string>, post: seq<string>, placeholders: seq<string>)
    requires name != [] && IsTrimmed(name)
    requires NoHeading(pre, ToLower(name))
    requires Unbroken(body)
    requires post == [] || EndTest(2)(post[0])
    ensures FindSectionWith(pre + ["## " + name] + (body + post), name, placeholders) == Classify(SectionText(Map(Trim, body)), placeholders)
  {
    var h := "## " + name;
    assert name + [] == name;
    HeadingMatchesPrefix(name, []);
    FindSectionAt(pre, h, body + post, name, placeholders);
    TrimmedHeading(name);
    LevelTwo(name);
    BodyOf(body, post, 2);
  }

  /** `TBD` alone under the heading, between blank lines, leaves the
      section empty, with or without a following section. */
  lemma PlaceholderSectionEmpty(pre: seq<string>, name: string, post: seq<string>, placeholders: seq<string>)
    requires name != [] && IsTrimmed(name)
    requires NoHeading(pre, ToLower(name))
    requires post == [] || EndTest(2)(post[0])
    requires "tbd" in placeholders
    ensures FindSectionWith(pre + ["## " + name] + (["", "TBD", ""] + post), name, placeholders) == Empty
  {
    var body := ["", "TBD", ""];
    TbdBody();
    SectionWithBody(pre, name, body, post, placeholders);
  }

  /** The body lines of the empty-section example, and their verdict. */
  lemma TbdBody()
    ensures forall j :: 0 <= j < 3 ==> !EndsBody(["", "TBD", ""][j], 2)
    ensures Map(Trim, ["", "TBD", ""]) == ["", "TBD", ""]
    ensures SectionText(["", "TBD", ""]) == "TBD"
    ensures Trim(ToLower("TBD")) == "tbd"
  {
    TbdLinesOpen();
    TbdLinesTrimmed();
    SectionTextTbd();
  }

  lemma TbdLinesOpen()
    ensures forall j :: 0 <= j < 3 ==> !EndsBody(["", "TBD", ""][j], 2)
  {
    PlainLineOpen("", 2);
    PlainLineOpen("TBD", 2);
    forall j | 0 <= j < 3
      ensures !EndsBody(["", "TBD", ""][j], 2)
    {
      if j == 1 {
        assert ["", "TBD", ""][j] == "TBD";
      } else {
        assert ["", "TBD", ""][j] == "";
      }
    }
  }

  /** A trimmed line that does not start with `#` never ends a section. */
  lemma PlainLineOpen(s: string, level: nat)
    requires IsTrimmed(s) && (s == [] || s[0] != '#')
    ensures !EndsBody(s, level)
  {
    TrimmedLine(s);
  }

  lemma TbdLinesTrimmed()
    ensures Map(Trim, ["", "TBD", ""]) == ["", "TBD", ""]
  {
    TrimmedLine("");
    TrimmedLine("TBD");
  }

  lemma SectionTextTbd()
    ensures SectionText(["", "TBD", ""]) == "TBD"
    ensures Trim(ToLower("TBD")) == "tbd"
  {
    JoinTbd();
    TrimPadded("\n", "TBD", "\n\n");
    LowerTbd();
  }

  lemma JoinTbd()
    ensures JoinTerminated(["", "TBD", ""], '\n') == "\n" + "TBD" + "\n\n"
  {
    var body := ["", "TBD", ""];
    assert body[1..][1..] == [""];
    assert JoinTerminated([""], '\n') == "\n";
    assert JoinTerminated(body[1..], '\n') == "TBD" + "\n" + "\n";
  }

  lemma LowerTbd()
    ensures Trim(ToLower("TBD")) == "tbd"
  {
    assert ToLower("TBD") == "tbd";
    TrimmedLine("tbd");
  }

  lemma TrimmedLine(s: string)
    requires IsTrimmed(s)
    ensures Trim(s) == s
  {
    assert s == [] + s + [];
    TrimPadded([], s, []);
  }

  /** As written, a section holding only an em-dash counts as present: the
      garbled fifth placeholder never matches it. */
  lemma DashSectionPresentAsWritten(pre: seq<string>, name: string, post: seq<string>)
    requires name != [] && IsTrimmed(name)
    requires NoHeading(pre, ToLower(name))
    requires post == [] || EndTest(2)(post[0])
    ensures FindSectionAsWritten(pre + ["## " + name] + (["\U{2014}"] + post), name) == Present
  {
    DashBody();
    SectionWithBody(pre, name, ["\U{2014}"], post, WrittenPlaceholders);
  }

  /** With the intended placeholder the same section is empty. */
  lemma DashSectionEmpty(pre: seq<string>, name: string, post: seq<string>)
    requires name != [] && IsTrimmed(name)
    requires NoHeading(pre, ToLower(name))
    requires post == [] || EndTest(2)(post[0])
    ensures FindSection(pre + ["## " + name] + (["\U{2014}"] + post), name) == Empty
  {
    DashBody();
    SectionWithBody(pre, name, ["\U{2014}"], post, IntendedPlaceholders);
  }

  /** The one-line em-dash body and its verdict under either list. */
  lemma DashBody()
    ensures forall j :: 0 <= j < 1 ==> !EndsBody(["\U{2014}"][j], 2)
    ensures Classify(SectionText(Map(Trim, ["\U{2014}"])), WrittenPlaceholders) == Present
    ensures Classify(SectionText(Map(Trim, ["\U{2014}"])), IntendedPlaceholders) == Empty
  {
    DashTrimmed();
    DashText();
    DashVerdicts();
  }

  lemma DashVerdicts()
    ensures Classify("\U{2014}", WrittenPlaceholders) == Present
    ensures Classify("\U{2014}", IntendedPlaceholders) == Empty
  {
    DashLower();
    DashPlaceholder();
  }

  lemma DashTrimmed()
    ensures Trim("\U{2014}") == "\U{2014}"
    ensures Map(Trim, ["\U{2014}"]) == ["\U{2014}"]
  {
    TrimmedLine("\U{2014}");
  }

  lemma DashText()
    ensures SectionText(["\U{2014}"]) == "\U{2014}"
  {
    var dash := "\U{2014}";
    assert JoinTerminated([dash], '\n') == [] + dash + "\n";
    TrimPadded([], dash, "\n");
  }

  lemma DashLower()
    ensures Trim(ToLower("\U{2014}")) == "\U{2014}"
  {
    assert ToLower("\U{2014}") == "\U{2014}";
    TrimmedLine("\U{2014}");
  }

  lemma DashPlaceholder()
    ensures "\U{2014}" !in WrittenPlaceholders && "\U{2014}" in IntendedPlaceholders
  {
    assert IntendedPlaceholders[4] == "\U{2014}";
  }

  // ---------------------------------------------------------------------
  // A whole handoff document
  // ---------------------------------------------------------------------

  /** No line is a heading for any of the names. */
  predicate NoHeadingFor(xs: seq<string>, names: seq<string>) {
    forall k :: 0 <= k < |names| ==> NoHeading(xs, ToLower(names[k]))
  }

  lemma NoHeadingOf(xs: seq<string>, names: seq<string>, k: nat)
    requires NoHeadingFor(xs, names) && k < |names|
    ensures NoHeading(xs, ToLower(names[k]))
  {
  }

  /** A body with a non-blank line whose text is not a placeholder. */
  predicate Substantive(body: seq<string>, placeholders: seq<string>) {
    && (exists j :: 0 <= j < |body| && !AllWhitespace(body[j]))
    && Trim(ToLower(SectionText(Map(Trim, body)))) !in placeholders
  }

  /** A `## ` heading that lacks, in either case, a letter of the name is
      not a heading for it. */
  lemma OtherHeading(title: string, name: string, c: char, at: nat)
    requires title != [] && IsTrimmed(title)
    requires 'a' <= c <= 'z' && at < |name| && Lower(name[at]) == c
    requires c !in title && (c as int - 32) as char !in title
    ensures !HeadingTest(ToLower(name))("## " + title)
  {
    var line := "## " + title;
    TrimmedHeading(title);
    var l := ToLower(line);
    forall i | 0 <= i < |l|
      ensures l[i] != c
    {
      if i >= 3 {
        assert line[i] == title[i - 3];
      }
    }
    ContainsChar(l, ToLower(name), c);
  }

  /** A body that stays inside its section is substantive exactly when
      the section is present. */
  lemma SubstantiveIffPresent(body: seq<string>, placeholders: seq<string>)
    requires Unbroken(body)
    ensures Substantive(body, placeholders) <==> Classify(SectionText(Map(Trim, body)), placeholders) == Present
  {
    BodyOf(body, [], 2);
    assert body + [] == body;
    SectionTextEmpty(body, 2);
  }

  /** `## ` followed by a non-blank title ends a level-two section. */
  lemma HeadingCloses(title: string)
    requires title != [] && IsTrimmed(title)
    ensures EndTest(2)("## " + title)
  {
    TrimmedHeading(title);
    LevelTwo(title);
  }

  lemma HandoffTitles()
    ensures HandoffSections[0] != [] && IsTrimmed(HandoffSections[0])
    ensures HandoffSections[1] != [] && IsTrimmed(HandoffSections[1])
    ensures HandoffSections[2] != [] && IsTrimmed(HandoffSections[2])
    ensures HandoffSections[3] != [] && IsTrimmed(HandoffSections[3])
  {
  }

  /** The earlier handoff headings do not match `Decisions made`. */
  lemma SecondNameDistinct()
    ensures !HeadingTest(ToLower(HandoffSections[1]))("## " + HandoffSections[0])
  {
    HandoffTitles();
    OtherHeading(HandoffSections[0], HandoffSections[1], 'c', 2);
  }

  /** The first heading does not match `What's next`. */
  lemma ThirdNameDistinctFromFirst()
    ensures !HeadingTest(ToLower(HandoffSections[2]))("## " + HandoffSections[0])
  {
    HandoffTitles();
    OtherHeading(HandoffSections[0], HandoffSections[2], 'x', 9);
  }

  /** The second heading does not match `What's next`. */
  lemma ThirdNameDistinctFromSecond()
    ensures !HeadingTest(ToLower(HandoffSections[2]))("## " + HandoffSections[1])
  {
    HandoffTitles();
    OtherHeading(HandoffSections[1], HandoffSections[2], 'x', 9);
  }

  /** The first heading does not match `Landmines`. */
  lemma FourthNameDistinctFromFirst()
    ensures !HeadingTest(ToLower(HandoffSections[3]))("## " + HandoffSections[0])
  {
    HandoffTitles();
    OtherHeading(HandoffSections[0], HandoffSections[3], 'l', 0);
  }

  /** The second heading does not match `Landmines`. */
  lemma FourthNameDistinctFromSecond()
    ensures !HeadingTest(ToLower(HandoffSections[3]))("## " + HandoffSections[1])
  {
    HandoffTitles();
    OtherHeading(HandoffSections[1], HandoffSections[3], 'l', 0);
  }

  /** The third heading does not match `Landmines`. */
  lemma FourthNameDistinctFromThird()
    ensures !HeadingTest(ToLower(HandoffSections[3]))("## " + HandoffSections[2])
  {
    HandoffTitles();
    OtherHeading(HandoffSections[2], HandoffSections[3], 'l', 0);
  }

  /** Four sections in order, after a preamble: each name's `## `
      heading followed by its body. */
  function FourSections(names: seq<string>, pre: seq<string>, b1: seq<string>, b2: seq<string>,
                        b3: seq<string>, b4: seq<string>): seq<string>
    requires |names| == 4
  {
    pre + ["## " + names[0]] + b1 + ["## " + names[1]] + b2
      + ["## " + names[2]] + b3 + ["## " + names[3]] + b4
  }

  /** The same lines cut at each heading in turn. */
  lemma FourSectionsCut(names: seq<string>, pre: seq<string>, b1: seq<string>, b2: seq<string>,
                        b3: seq<string>, b4: seq<string>)
    requires |names| == 4
    ensures var lines := FourSections(names, pre, b1, b2, b3, b4);
            var upTo2 := pre + ["## " + names[0]] + b1;
            var upTo3 := upTo2 + ["## " + names[1]] + b2;
            var upTo4 := upTo3 + ["## " + names[2]] + b3;
            && lines == pre + ["## " + names[0]] + (b1 + (["## " + names[1]] + (b2 + ["## " + names[2]] + b3 + ["## " + names[3]] + b4)))
            && lines == upTo2 + ["## " + names[1]] + (b2 + (["## " + names[2]] + (b3 + ["## " + names[3]] + b4)))
            && lines == upTo3 + ["## " + names[2]] + (b3 + (["## " + names[3]] + b4))
            && lines == upTo4 + ["## " + names[3]] + (b4 + [])
  {
  }

  /** `SectionWithBody` for lines given as a whole. */
  lemma SectionAt(lines: seq<string>, pre: seq<string>, name: string, body: seq<string>,
                  post: seq<string>, placeholders: seq<string>)
    requires lines == pre + ["## " + name] + (body + post)
    requires name != [] && IsTrimmed(name)
    requires NoHeading(pre, ToLower(name))
    requires Unbroken(body)
    requires post == [] || EndTest(2)(post[0])
    ensures FindSectionWith(lines, name, placeholders) == Classify(SectionText(Map(Trim, body)), placeholders)
  {
    SectionWithBody(pre, name, body, post, placeholders);
  }

  lemma FirstOfFour(names: seq<string>, pre: seq<string>, b1: seq<string>, b2: seq<string>,
                    b3: seq<string>, b4: seq<string>, placeholders: seq<string>)
    requires Separable(names)
    requires NoHeading(pre, ToLower(names[0]))
    requires Unbroken(b1)
    ensures FindSectionWith(FourSections(names, pre, b1, b2, b3, b4), names[0], placeholders)
            == Classify(SectionText(Map(Trim, b1)), placeholders)
  {
    FourSectionsCut(names, pre, b1, b2, b3, b4);
    var post := ["## " + names[1]] + (b2 + ["## " + names[2]] + b3 + ["## " + names[3]] + b4);
    assert post[0] == "## " + names[1];
    SectionAt(FourSections(names, pre, b1, b2, b3, b4), pre, names[0], b1, post, placeholders);
  }

  lemma SecondOfFour(names: seq<string>, pre: seq<string>, b1: seq<string>, b2: seq<string>,
                     b3: seq<string>, b4: seq<string>, placeholders: seq<string>)
    requires Separable(names)
    requires NoHeading(pre, ToLower(names[1])) && NoHeading(b1, ToLower(names[1]))
    requires Unbroken(b2)
    ensures FindSectionWith(FourSections(names, pre, b1, b2, b3, b4), names[1], placeholders)
            == Classify(SectionText(Map(Trim, b2)), placeholders)
  {
    NoneOfJoin(pre, "## " + names[0], b1, HeadingTest(ToLower(names[1])));
    FourSectionsCut(names, pre, b1, b2, b3, b4);
    var post := ["## " + names[2]] + (b3 + ["## " + names[3]] + b4);
    assert post[0] == "## " + names[2];
    SectionAt(FourSections(names, pre, b1, b2, b3, b4), pre + ["## " + names[0]] + b1, names[1], b2, post, placeholders);
  }

  lemma ThirdOfFour(names: seq<string>, pre: seq<string>, b1: seq<string>, b2: seq<string>,
                    b3: seq<string>, b4: seq<string>, placeholders: seq<string>)
    requires Separable(names)
    requires NoHeading(pre, ToLower(names[2])) && NoHeading(b1, ToLower(names[2])) && NoHeading(b2, ToLower(names[2]))
    requires Unbroken(b3)
    ensures FindSectionWith(FourSections(names, pre, b1, b2, b3, b4), names[2], placeholders)
            == Classify(SectionText(Map(Trim, b3)), placeholders)
  {
    var test := HeadingTest(ToLower(names[2]));
    NoneOfJoin(pre, "## " + names[0], b1, test);
    NoneOfJoin(pre + ["## " + names[0]] + b1, "## " + names[1], b2, test);
    FourSectionsCut(names, pre, b1, b2, b3, b4);
    var post := ["## " + names[3]] + b4;
    assert post[0] == "## " + names[3];
    var upTo3 := pre + ["## " + names[0]] + b1 + ["## " + names[1]] + b2;
    SectionAt(FourSections(names, pre, b1, b2, b3, b4), upTo3, names[2], b3, post, placeholders);
  }

  lemma FourthOfFour(names: seq<string>, pre: seq<string>, b1: seq<string>, b2: seq<string>,
                     b3: seq<string>, b4: seq<string>, placeholders: seq<string>)
    requires Separable(names)
    requires NoHeading(pre, ToLower(names[3])) && NoHeading(b1, ToLower(names[3]))
    requires NoHeading(b2, ToLower(names[3])) && NoHeading(b3, ToLower(names[3]))
    requires Unbroken(b4)
    ensures FindSectionWith(FourSections(names, pre, b1, b2, b3, b4), names[3], placeholders)
            == Classify(SectionText(Map(Trim, b4)), placeholders)
  {
    var test := HeadingTest(ToLower(names[3]));
    NoneOfJoin(pre, "## " + names[0], b1, test);
    NoneOfJoin(pre + ["## " + names[0]] + b1, "## " + names[1], b2, test);
    NoneOfJoin(pre + ["## " + names[0]] + b1 + ["## " + names[1]] + b2, "## " + names[2], b3, test);
    FourSectionsCut(names, pre, b1, b2, b3, b4);
    var upTo4 := pre + ["## " + names[0]] + b1 + ["## " + names[1]] + b2 + ["## " + names[2]] + b3;
    SectionAt(FourSections(names, pre, b1, b2, b3, b4), upTo4, names[3], b4, [], placeholders);
  }

  /** Names that can head four sections in order: each is a non-blank
      trimmed title, each `## ` heading of them ends a level-two section,
      and no heading names a later section. */
  predicate Separable(names: seq<string>) {
    && |names| == 4
    && names[0] != [] && IsTrimmed(names[0]) && names[1] != [] && IsTrimmed(names[1])
    && names[2] != [] && IsTrimmed(names[2]) && names[3] != [] && IsTrimmed(names[3])
    && EndTest(2)("## " + names[1]) && EndTest(2)("## " + names[2]) && EndTest(2)("## " + names[3])
    && !HeadingTest(ToLower(names[1]))("## " + names[0])
    && !HeadingTest(ToLower(names[2]))("## " + names[0])
    && !HeadingTest(ToLower(names[2]))("## " + names[1])
    && !HeadingTest(ToLower(names[3]))("## " + names[0])
    && !HeadingTest(ToLower(names[3]))("## " + names[1])
    && !HeadingTest(ToLower(names[3]))("## " + names[2])
  }

  /** Four sections in order under separable names: each section's state
      is the classification of the lines written under it. */
  lemma FourSectionStates(names: seq<string>, pre: seq<string>, b1: seq<string>, b2: seq<string>,
                          b3: seq<string>, b4: seq<string>, placeholders: seq<string>)
    requires Separable(names)
    requires NoHeadingFor(pre, names)
    requires NoHeadingFor(b1, names[1..])
    requires NoHeadingFor(b2, names[2..])
    requires NoHeadingFor(b3, names[3..])
    requires Unbroken(b1) && Unbroken(b2) && Unbroken(b3) && Unbroken(b4)
    ensures FindSectionWith(FourSections(names, pre, b1, b2, b3, b4), names[0], placeholders)
            == Classify(SectionText(Map(Trim, b1)), placeholders)
    ensures FindSectionWith(FourSections(names, pre, b1, b2, b3, b4), names[1], placeholders)
            == Classify(SectionText(Map(Trim, b2)), placeholders)
    ensures FindSectionWith(FourSections(names, pre, b1, b2, b3, b4), names[2], placeholders)
            == Classify(SectionText(Map(Trim, b3)), placeholders)
    ensures FindSectionWith(FourSections(names, pre, b1, b2, b3, b4), names[3], placeholders)
            == Classify(SectionText(Map(Trim, b4)), placeholders)
  {
    assert names[1..][0] == names[1] && names[1..][1] == names[2] && names[1..][2] == names[3];
    assert names[2..][0] == names[2] && names[2..][1] == names[3] && names[3..][0] == names[3];
    NoHeadingOf(pre, names, 0);
    NoHeadingOf(pre, names, 1);
    NoHeadingOf(pre, names, 2);
    NoHeadingOf(pre, names, 3);
    NoHeadingOf(b1, names[1..], 0);
    NoHeadingOf(b1, names[1..], 1);
    NoHeadingOf(b1, names[1..], 2);
    NoHeadingOf(b2, names[2..], 0);
    NoHeadingOf(b2, names[2..], 1);
    NoHeadingOf(b3, names[3..], 0);
    FirstOfFour(names, pre, b1, b2, b3, b4, placeholders);
    SecondOfFour(names, pre, b1, b2, b3, b4, placeholders);
    ThirdOfFour(names, pre, b1, b2, b3, b4, placeholders);
    FourthOfFour(names, pre, b1, b2, b3, b4, placeholders);
  }

  /** The handoff template's section names are separable. */
  lemma HandoffSeparable()
    ensures Separable(HandoffSections)
  {
    var n := HandoffSections;
    HandoffTitles();
    HandoffHeadingsClose();
    SecondNameDistinct();
    ThirdNameDistinctFromFirst();
    ThirdNameDistinctFromSecond();
    FourthNameDistinctFromFirst();
    FourthNameDistinctFromSecond();
    FourthNameDistinctFromThird();
  }

  lemma HandoffHeadingsClose()
    ensures EndTest(2)("## " + HandoffSections[1])
    ensures EndTest(2)("## " + HandoffSections[2])
    ensures EndTest(2)("## " + HandoffSections[3])
  {
    HandoffTitles();
    HeadingCloses(HandoffSections[1]);
    HeadingCloses(HandoffSections[2]);
    HeadingCloses(HandoffSections[3]);
  }

  /** The lines of a handoff written in template order: the preamble, then
      each section's `## ` heading followed by its body. */
  function HandoffLines(pre: seq<string>, b1: seq<string>, b2: seq<string>, b3: seq<string>, b4: seq<string>): seq<string> {
    FourSections(HandoffSections, pre, b1, b2, b3, b4)
  }

  /** The four sections of a handoff written in template order, each under
      its own `## ` heading: each section's state is the classification of
      the lines written under it. The preamble may hold any line that is not
      a heading for a section (a `# Handoff` title, say), and a body may
      hold deeper headings as long as they do not name a later section. */
  lemma HandoffSectionStates(pre: seq<string>, b1: seq<string>, b2: seq<string>,
                             b3: seq<string>, b4: seq<string>, placeholders: seq<string>)
    requires NoHeadingFor(pre, HandoffSections)
    requires NoHeadingFor(b1, HandoffSections[1..])
    requires NoHeadingFor(b2, HandoffSections[2..])
    requires NoHeadingFor(b3, HandoffSections[3..])
    requires Unbroken(b1) && Unbroken(b2) && Unbroken(b3) && Unbroken(b4)
    ensures FindSectionWith(HandoffLines(pre, b1, b2, b3, b4), HandoffSections[0], placeholders)
            == Classify(SectionText(Map(Trim, b1)), placeholders)
    ensures FindSectionWith(HandoffLines(pre, b1, b2, b3, b4), HandoffSections[1], placeholders)
            == Classify(SectionText(Map(Trim, b2)), placeholders)
    ensures FindSectionWith(HandoffLines(pre, b1, b2, b3, b4), HandoffSections[2], placeholders)
            == Classify(SectionText(Map(Trim, b3)), placeholders)
    ensures FindSectionWith(HandoffLines(pre, b1, b2, b3, b4), HandoffSections[3], placeholders)
            == Classify(SectionText(Map(Trim, b4)), placeholders)
  {
    HandoffSeparable();
    FourSectionStates(HandoffSections, pre, b1, b2, b3, b4, placeholders);
  }

  /** The complete handoff of the unit tests, in general form: four
      sections in template order, each with a non-blank body that is not a
      placeholder, pass the check. */
  lemma CompleteHandoffPasses(content: string, pre: seq<string>, b1: seq<string>, b2: seq<string>,
                              b3: seq<string>, b4: seq<string>, placeholders: seq<string>)
    requires Lines(content) == HandoffLines(pre, b1, b2, b3, b4)
    requires NoHeadingFor(pre, HandoffSections)
    requires NoHeadingFor(b1, HandoffSections[1..])
    requires NoHeadingFor(b2, HandoffSections[2..])
    requires NoHeadingFor(b3, HandoffSections[3..])
    requires Unbroken(b1) && Unbroken(b2) && Unbroken(b3) && Unbroken(b4)
    requires Substantive(b1, placeholders) && Substantive(b2, placeholders)
    requires Substantive(b3, placeholders) && Substantive(b4, placeholders)
    ensures Passed(CheckWith(content, "handoff", placeholders))
  {
    HandoffAllPresent(pre, b1, b2, b3, b4, placeholders);
    FourPresent(Lines(content), HandoffSections, placeholders);
  }

  lemma HandoffAllPresent(pre: seq<string>, b1: seq<string>, b2: seq<string>,
                          b3: seq<string>, b4: seq<string>, placeholders: seq<string>)
    requires NoHeadingFor(pre, HandoffSections)
    requires NoHeadingFor(b1, HandoffSections[1..])
    requires NoHeadingFor(b2, HandoffSections[2..])
    requires NoHeadingFor(b3, HandoffSections[3..])
    requires Unbroken(b1) && Unbroken(b2) && Unbroken(b3) && Unbroken(b4)
    requires Substantive(b1, placeholders) && Substantive(b2, placeholders)
    requires Substantive(b3, placeholders) && Substantive(b4, placeholders)
    ensures FindSectionWith(HandoffLines(pre, b1, b2, b3, b4), HandoffSections[0], placeholders) == Present
    ensures FindSectionWith(HandoffLines(pre, b1, b2, b3, b4), HandoffSections[1], placeholders) == Present
    ensures FindSectionWith(HandoffLines(pre, b1, b2, b3, b4), HandoffSections[2], placeholders) == Present
    ensures FindSectionWith(HandoffLines(pre, b1, b2, b3, b4), HandoffSections[3], placeholders) == Present
  {
    var lines := HandoffLines(pre, b1, b2, b3, b4);
    HandoffSectionStates(pre, b1, b2, b3, b4, placeholders);
    SubstantiveSection(lines, HandoffSections[0], b1, placeholders);
    SubstantiveSection(lines, HandoffSections[1], b2, placeholders);
    SubstantiveSection(lines, HandoffSections[2], b3, placeholders);
    SubstantiveSection(lines, HandoffSections[3], b4, placeholders);
  }

  /** A section whose body is substantive is present. */
  lemma SubstantiveSection(lines: seq<string>, name: string, body: seq<string>, placeholders: seq<string>)
    requires FindSectionWith(lines, name, placeholders) == Classify(SectionText(Map(Trim, body)), placeholders)
    requires Unbroken(body) && Substantive(body, placeholders)
    ensures FindSectionWith(lines, name, placeholders) == Present
  {
    SubstantiveIffPresent(body, placeholders);
  }

  /** Nothing to report when every section of a four-section template is
      present. */
  lemma FourPresent(lines: seq<string>, sections: seq<string>, placeholders: seq<string>)
    requires |sections| == 4
    requires FindSectionWith(lines, sections[0], placeholders) == Present
    requires FindSectionWith(lines, sections[1], placeholders) == Present
    requires FindSectionWith(lines, sections[2], placeholders) == Present
    requires FindSectionWith(lines, sections[3], placeholders) == Present
    ensures WithState(lines, sections, placeholders, Missing) == []
    ensures WithState(lines, sections, placeholders, Empty) == []
  {
    var find := Finder(lines, placeholders);
    FilterFour(sections, find, Missing);
    FilterFour(sections, find, Empty);
  }

  /** On a complete handoff whose `Landmines` holds only an em-dash, the
      check as written passes while the intended check reports that one
      section empty. */
  lemma DashHandoffDisagrees(content: string, pre: seq<string>, b1: seq<string>, b2: seq<string>, b3: seq<string>)
    requires Lines(content) == HandoffLines(pre, b1, b2, b3, ["\U{2014}"])
    requires NoHeadingFor(pre, HandoffSections)
    requires NoHeadingFor(b1, HandoffSections[1..])
    requires NoHeadingFor(b2, HandoffSections[2..])
    requires NoHeadingFor(b3, HandoffSections[3..])
    requires Unbroken(b1) && Unbroken(b2) && Unbroken(b3)
    requires Substantive(b1, WrittenPlaceholders) && Substantive(b2, WrittenPlaceholders)
    requires Substantive(b3, WrittenPlaceholders)
    requires Substantive(b1, IntendedPlaceholders) && Substantive(b2, IntendedPlaceholders)
    requires Substantive(b3, IntendedPlaceholders)
    ensures Passed(Check(content, "handoff"))
    ensures CheckIntended(content, "handoff") == Report([], ["Landmines"])
  {
    DashSubstantiveAsWritten();
    CompleteHandoffPasses(content, pre, b1, b2, b3, ["\U{2014}"], WrittenPlaceholders);
    DashIntended(content, pre, b1, b2, b3);
  }

  /** As written, the em-dash body counts as substance. */
  lemma DashSubstantiveAsWritten()
    ensures Unbroken(["\U{2014}"]) && Substantive(["\U{2014}"], WrittenPlaceholders)
  {
    DashBody();
    SubstantiveIffPresent(["\U{2014}"], WrittenPlaceholders);
  }

  lemma DashIntended(content: string, pre: seq<string>, b1: seq<string>, b2: seq<string>, b3: seq<string>)
    requires Lines(content) == HandoffLines(pre, b1, b2, b3, ["\U{2014}"])
    requires NoHeadingFor(pre, HandoffSections)
    requires NoHeadingFor(b1, HandoffSections[1..])
    requires NoHeadingFor(b2, HandoffSections[2..])
    requires NoHeadingFor(b3, HandoffSections[3..])
    requires Unbroken(b1) && Unbroken(b2) && Unbroken(b3)
    requires Substantive(b1, IntendedPlaceholders) && Substantive(b2, IntendedPlaceholders)
    requires Substantive(b3, IntendedPlaceholders)
    ensures CheckIntended(content, "handoff") == Report([], ["Landmines"])
  {
    DashBody();
    LandminesEmpty(content, pre, b1, b2, b3, ["\U{2014}"], IntendedPlaceholders);
  }

  /** A handoff whose first three sections are substantive and whose
      `Landmines` is empty reports exactly that section. */
  lemma LandminesEmpty(content: string, pre: seq<string>, b1: seq<string>, b2: seq<string>,
                       b3: seq<string>, b4: seq<string>, placeholders: seq<string>)
    requires Lines(content) == HandoffLines(pre, b1, b2, b3, b4)
    requires NoHeadingFor(pre, HandoffSections)
    requires NoHeadingFor(b1, HandoffSections[1..])
    requires NoHeadingFor(b2, HandoffSections[2..])
    requires NoHeadingFor(b3, HandoffSections[3..])
    requires Unbroken(b1) && Unbroken(b2) && Unbroken(b3) && Unbroken(b4)
    requires Substantive(b1, placeholders) && Substantive(b2, placeholders) && Substantive(b3, placeholders)
    requires Classify(SectionText(Map(Trim, b4)), placeholders) == Empty
    ensures CheckWith(content, "handoff", placeholders) == Report([], ["Landmines"])
  {
    LandminesStates(pre, b1, b2, b3, b4, placeholders);
    LastEmptyReport(content, "handoff", HandoffLines(pre, b1, b2, b3, b4), placeholders);
  }

  /** The report on a four-section template whose only empty section is
      the last. */
  lemma LastEmptyReport(content: string, template: string, lines: seq<string>, placeholders: seq<string>)
    requires Lines(content) == lines
    requires TemplateSections(template).Some? && |TemplateSections(template).value| == 4
    requires var sections := TemplateSections(template).value;
             && FindSectionWith(lines, sections[0], placeholders) == Present
             && FindSectionWith(lines, sections[1], placeholders) == Present
             && FindSectionWith(lines, sections[2], placeholders) == Present
             && FindSectionWith(lines, sections[3], placeholders) == Empty
    ensures CheckWith(content, template, placeholders) == Report([], [TemplateSections(template).value[3]])
  {
    LastEmpty(lines, TemplateSections(template).value, placeholders);
  }

  lemma LandminesStates(pre: seq<string>, b1: seq<string>, b2: seq<string>,
                        b3: seq<string>, b4: seq<string>, placeholders: seq<string>)
    requires NoHeadingFor(pre, HandoffSections)
    requires NoHeadingFor(b1, HandoffSections[1..])
    requires NoHeadingFor(b2, HandoffSections[2..])
    requires NoHeadingFor(b3, HandoffSections[3..])
    requires Unbroken(b1) && Unbroken(b2) && Unbroken(b3) && Unbroken(b4)
    requires Substantive(b1, placeholders) && Substantive(b2, placeholders) && Substantive(b3, placeholders)
    requires Classify(SectionText(Map(Trim, b4)), placeholders) == Empty
    ensures FindSectionWith(HandoffLines(pre, b1, b2, b3, b4), HandoffSections[0], placeholders) == Present
    ensures FindSectionWith(HandoffLines(pre, b1, b2, b3, b4), HandoffSections[1], placeholders) == Present
    ensures FindSectionWith(HandoffLines(pre, b1, b2, b3, b4), HandoffSections[2], placeholders) == Present
    ensures FindSectionWith(HandoffLines(pre, b1, b2, b3, b4), HandoffSections[3], placeholders) == Empty
  {
    var lines := HandoffLines(pre, b1, b2, b3, b4);
    HandoffSectionStates(pre, b1, b2, b3, b4, placeholders);
    SubstantiveSection(lines, HandoffSections[0], b1, placeholders);
    SubstantiveSection(lines, HandoffSections[1], b2, placeholders);
    SubstantiveSection(lines, HandoffSections[2], b3, placeholders);
  }

  /** Only the last of four sections is reported, as empty. */
  lemma LastEmpty(lines: seq<string>, sections: seq<string>, placeholders: seq<string>)
    requires |sections| == 4
    requires FindSectionWith(lines, sections[0], placeholders) == Present
    requires FindSectionWith(lines, sections[1], placeholders) == Present
    requires FindSectionWith(lines, sections[2], placeholders) == Present
    requires FindSectionWith(lines, sections[3], placeholders) == Empty
    ensures WithState(lines, sections, placeholders, Missing) == []
    ensures WithState(lines, sections, placeholders, Empty) == [sections[3]]
  {
    var find := Finder(lines, placeholders);
    FilterFour(sections, find, Missing);
    FilterFour(sections, find, Empty);
  }

  /** Filtering four elements by the value `f` gives them. */
  lemma FilterFour<T, S>(xs: seq<T>, f: T -> S, v: S)
    requires |xs| == 4
    ensures Filter(xs, Is(f, v)) == (if f(xs[0]) == v then [xs[0]] else []) + (if f(xs[1]) == v then [xs[1]] else [])
                                     + (if f(xs[2]) == v then [xs[2]] else []) + (if f(xs[3]) == v then [xs[3]] else [])
  {
    var p := Is(f, v);
    assert xs == [] + [xs[0]] + [xs[1]] + [xs[2]] + [xs[3]];
    FilterSnoc([], xs[0], p);
    FilterSnoc([xs[0]], xs[1], p);
    assert [] + [xs[0]] == [xs[0]] && [xs[0]] + [xs[1]] == [xs[0], xs[1]];
    FilterSnoc([xs[0], xs[1]], xs[2], p);
    assert [xs[0], xs[1]] + [xs[2]] == [xs[0], xs[1], xs[2]];
    FilterSnoc([xs[0], xs[1], xs[2]], xs[3], p);
  }
}
