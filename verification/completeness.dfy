/** The completeness checker of `completeness.rs`: the fixed templates,
    the search for a section's heading, the collection of its body, the
    placeholder test, and the missing/empty report that `check` prints. */
module Completeness {
  import opened Text
  import opened Seqs

  // ---------------------------------------------------------------------
  // Templates
  // ---------------------------------------------------------------------

  const AdrSections: seq<string> := [
    "Context and Problem Statement",
    "Decision Drivers",
    "Considered Options",
    "Decision Outcome",
    "Consequences"
  ]

  const HandoffSections: seq<string> := [
    "Where things stand",
    "Decisions made",
    "What's next",
    "Landmines"
  ]

  const DesignDocSections: seq<string> := [
    "Overview",
    "Context",
    "Approach",
    "Alternatives considered",
    "Consequences"
  ]

  /** The required sections of a template, in order; `None` for a name the
      checker does not know. */
  function TemplateSections(template: string): (r: Option<seq<string>>)
    ensures r.Some? <==> template == "adr" || template == "handoff" || template == "design-doc"
    ensures template == "adr" ==> r == Some(AdrSections)
    ensures template == "handoff" ==> r == Some(HandoffSections)
    ensures template == "design-doc" ==> r == Some(DesignDocSections)
  {
    if template == "adr" then Some(AdrSections)
    else if template == "handoff" then Some(HandoffSections)
    else if template == "design-doc" then Some(DesignDocSections)
    else None
  }

  // ---------------------------------------------------------------------
  // Finding the heading
  // ---------------------------------------------------------------------

  /** A line whose trimmed, lower-cased form starts with `## ` or `### `
      and contains the lower-cased section name anywhere. */
  predicate IsSectionHeading(line: string, lowerName: string) {
    var t := ToLower(Trim(line));
    (StartsWith(t, "## ") || StartsWith(t, "### ")) && Contains(t, lowerName)
  }

  function HeadingTest(lowerName: string): string -> bool {
    line => IsSectionHeading(line, lowerName)
  }

  /** `position`: the index of the first heading for the section, if any. */
  function FindHeading(lines: seq<string>, lowerName: string): (r: Option<nat>)
    ensures r.None? <==> forall i :: 0 <= i < |lines| ==> !IsSectionHeading(lines[i], lowerName)
    ensures r.Some? ==> r.value < |lines| && IsSectionHeading(lines[r.value], lowerName)
    ensures r.Some? ==> forall i :: 0 <= i < r.value ==> !IsSectionHeading(lines[i], lowerName)
  {
    var k := FirstWhere(lines, HeadingTest(lowerName));
    if k < |lines| then Some(k) else None
  }

  /** The number of `#` characters at the start of `s`. */
  function LeadingHashes(s: string): (n: nat)
    ensures n <= |s|
    ensures forall i :: 0 <= i < n ==> s[i] == '#'
    ensures n < |s| ==> s[n] != '#'
    decreases |s|
  {
    if s != [] && s[0] == '#' then 1 + LeadingHashes(s[1..]) else 0
  }

  /** Lower-casing never makes or unmakes a `#` or a space. */
  lemma LowerKeepsMarks(c: char)
    ensures Lower(c) == '#' <==> c == '#'
    ensures Lower(c) == ' ' <==> c == ' '
  {
  }

  /** A matched heading is of level two or three. */
  lemma HeadingLevel(line: string, lowerName: string)
    requires IsSectionHeading(line, lowerName)
    ensures 2 <= LeadingHashes(Trim(line)) <= 3
  {
    var t := Trim(line);
    var l := ToLower(t);
    LowerKeepsMarks(t[0]);
    LowerKeepsMarks(t[1]);
    LowerKeepsMarks(t[2]);
    assert l[0] == '#' && l[1] == '#';
    if l[2] == '#' {
      LowerKeepsMarks(t[3]);
      assert l[3] == ' ';
    }
  }

  // ---------------------------------------------------------------------
  // Collecting the body
  // ---------------------------------------------------------------------

  /** A line that ends a section of the given level: its trimmed form
      starts with `#` and has no more `#` than the level. Text after the
      hashes does not matter, so `#x` and `#comment` count too. */
  predicate EndsBody(line: string, level: nat) {
    Closes(Trim(line), level)
  }

  /** The test on the trimmed line. */
  predicate Closes(trimmed: string, level: nat) {
    StartsWith(trimmed, "#") && LeadingHashes(trimmed) <= level
  }

  function EndTest(level: nat): string -> bool {
    line => EndsBody(line, level)
  }

  /** Where the body stops: the first line that ends it, or the end. */
  function BodyEnd(lines: seq<string>, level: nat): (k: nat)
    ensures k <= |lines|
    ensures forall i :: 0 <= i < k ==> !EndsBody(lines[i], level)
    ensures k < |lines| ==> EndsBody(lines[k], level)
  {
    FirstWhere(lines, EndTest(level))
  }

  /** The trimmed lines of the body. */
  function Body(lines: seq<string>, level: nat): (r: seq<string>)
    ensures |r| == BodyEnd(lines, level)
  {
    Map(Trim, lines[..BodyEnd(lines, level)])
  }

  /** The stop test of the body loop, applied to a line already trimmed:
      does it close a section opened at `level`? */
  function ClosesAt(level: nat): string -> bool {
    trimmed => Closes(trimmed, level)
  }

  /** The body loop of `find_section_content`: trim each line, stop at a
      heading of the same or a higher rank, keep the rest. */
  method CollectBody(lines: seq<string>, level: nat) returns (body: seq<string>)
    ensures body == Body(lines, level)
  {
    body := MapUntil(lines, Trim, ClosesAt(level));
    FirstWhereUnique(lines, EndTest(level), |body|);
  }

  /** A heading more than `level` deep stays inside the body. */
  lemma DeeperHeadingKept(line: string, level: nat)
    requires LeadingHashes(Trim(line)) > level
    ensures !EndsBody(line, level)
  {
  }

  /** The section text: the trimmed lines, each followed by a line feed,
      then trimmed as a whole. */
  function SectionText(body: seq<string>): string {
    Trim(JoinTerminated(body, '\n'))
  }

  /** The section text is empty exactly when every body line is blank. */
  lemma SectionTextEmpty(lines: seq<string>, level: nat)
    ensures SectionText(Body(lines, level)) == [] <==>
            forall i :: 0 <= i < BodyEnd(lines, level) ==> AllWhitespace(lines[i])
  {
    var body := Body(lines, level);
    JoinTerminatedBlank(body, '\n');
    forall i | 0 <= i < |body|
      ensures AllWhitespace(body[i]) <==> AllWhitespace(lines[i])
    {
      MapAt(Trim, lines[..BodyEnd(lines, level)], i);
      var t := Trim(lines[i]);
      assert AllWhitespace(t) <==> t == [] by {
        if t != [] {
          assert !IsWhitespace(t[0]);
        }
      }
    }
  }

  // ---------------------------------------------------------------------
  // Classification
  // ---------------------------------------------------------------------

  datatype SectionState = Missing | Empty | Present

  /** The placeholder bodies exactly as the source spells them. The fifth
      is the three characters U+00E2 U+20AC U+201D, which is what an em-dash
      becomes when its UTF-8 bytes are read as Windows-1252. */
  const WrittenPlaceholders: seq<string> := ["tbd", "todo", "n/a", "...", "\U{E2}\U{20AC}\U{201D}", "placeholder"]

  /** The same list with the em-dash the fifth entry stands for. */
  const IntendedPlaceholders: seq<string> := ["tbd", "todo", "n/a", "...", "\U{2014}", "placeholder"]

  /** Empty for blank text or a text that, lower-cased and trimmed, is
      exactly one of the placeholders; Present for anything else. */
  function Classify(text: string, placeholders: seq<string>): (r: SectionState)
    ensures r != Missing
    ensures r == Present ==> text != []
    ensures r == Empty <==> text == [] || Trim(ToLower(text)) in placeholders
  {
    if text == [] then Empty
    else if Trim(ToLower(text)) in placeholders then Empty
    else Present
  }

  /** The state of the body under a heading at `idx`. */
  function StateBelow(lines: seq<string>, idx: nat, placeholders: seq<string>): SectionState
    requires idx < |lines|
  {
    var level := LeadingHashes(Trim(lines[idx]));
    Classify(SectionText(Body(lines[idx + 1..], level)), placeholders)
  }

  /** `find_section_content` with a given placeholder list. */
  function FindSectionWith(lines: seq<string>, name: string, placeholders: seq<string>): (r: SectionState)
    ensures r == Missing <==> forall i :: 0 <= i < |lines| ==> !IsSectionHeading(lines[i], ToLower(name))
  {
    match FindHeading(lines, ToLower(name))
    case None => Missing
    case Some(idx) => StateBelow(lines, idx, placeholders)
  }

  /** `find_section_content` exactly as written, with the garbled fifth
      placeholder. */
  function FindSectionAsWritten(lines: seq<string>, name: string): (r: SectionState)
    ensures r == Missing <==> forall i :: 0 <= i < |lines| ==> !IsSectionHeading(lines[i], ToLower(name))
  {
    FindSectionWith(lines, name, WrittenPlaceholders)
  }

  /** `find_section_content` with the em-dash placeholder it evidently
      means. */
  function FindSection(lines: seq<string>, name: string): (r: SectionState)
    ensures r == Missing <==> forall i :: 0 <= i < |lines| ==> !IsSectionHeading(lines[i], ToLower(name))
  {
    FindSectionWith(lines, name, IntendedPlaceholders)
  }

  /** The section's state on the document text. */
  function StateOf(content: string, name: string, placeholders: seq<string>): SectionState {
    FindSectionWith(Lines(content), name, placeholders)
  }

  /** When the first heading for the section is at `idx`, the verdict is
      about the text between it and the first line ending the section, at
      the heading's own level, which is two or three. */
  lemma FoundSection(lines: seq<string>, name: string, idx: nat, placeholders: seq<string>)
    requires idx < |lines| && IsSectionHeading(lines[idx], ToLower(name))
    requires forall i :: 0 <= i < idx ==> !IsSectionHeading(lines[i], ToLower(name))
    ensures 2 <= LeadingHashes(Trim(lines[idx])) <= 3
    ensures FindSectionWith(lines, name, placeholders) == StateBelow(lines, idx, placeholders)
  {
    HeadingLevel(lines[idx], ToLower(name));
    FirstHeading(lines, ToLower(name), idx);
  }

  /** The heading search stops at the first heading for the section. */
  lemma FirstHeading(lines: seq<string>, lowerName: string, idx: nat)
    requires idx < |lines| && IsSectionHeading(lines[idx], lowerName)
    requires forall i :: 0 <= i < idx ==> !IsSectionHeading(lines[i], lowerName)
    ensures FindHeading(lines, lowerName) == Some(idx)
  {
    FirstWhereUnique(lines, HeadingTest(lowerName), idx);
  }

  /** A `## ` heading whose title starts with the name matches it, however
      the title goes on: "Context" matches "## Context and Problem Statement". */
  lemma HeadingMatchesPrefix(name: string, rest: string)
    requires name + rest != [] && IsTrimmed(name + rest)
    ensures IsSectionHeading("## " + (name + rest), ToLower(name))
  {
    var line := "## " + (name + rest);
    TrimmedHeading(name + rest);
    var l := ToLower(line);
    LowerHeading(name, rest);
    ContainsInside("## ", ToLower(name), ToLower(rest));
    assert StartsWith(l, "## ");
  }

  lemma TrimmedHeading(title: string)
    requires title != [] && IsTrimmed(title)
    ensures Trim("## " + title) == "## " + title
  {
    var line := "## " + title;
    assert line == [] + line + [];
    TrimPadded([], line, []);
  }

  lemma LowerHeading(name: string, rest: string)
    ensures ToLower("## " + (name + rest)) == "## " + ToLower(name) + ToLower(rest)
  {
    ToLowerConcat("## ", name + rest);
    ToLowerConcat(name, rest);
    assert ToLower("## ") == "## ";
  }

  // ---------------------------------------------------------------------
  // Aggregation
  // ---------------------------------------------------------------------

  /** The state of each section in the document. */
  function Finder(lines: seq<string>, placeholders: seq<string>): string -> SectionState {
    s => FindSectionWith(lines, s, placeholders)
  }

  /** The sections, in template order, whose state is `state`. */
  function WithState(lines: seq<string>, sections: seq<string>, placeholders: seq<string>, state: SectionState): (r: seq<string>)
    ensures |r| <= |sections|
  {
    Filter(sections, Is(Finder(lines, placeholders), state))
  }

  /** A section is listed under a state exactly when it is required and has
      that state. */
  lemma WithStateMembers(lines: seq<string>, sections: seq<string>, placeholders: seq<string>, state: SectionState, s: string)
    ensures s in WithState(lines, sections, placeholders, state) <==>
              s in sections && FindSectionWith(lines, s, placeholders) == state
  {
    FilterMembers(sections, Is(Finder(lines, placeholders), state), s);
  }

  /** Each list keeps template order. */
  lemma WithStateOrdered(lines: seq<string>, sections: seq<string>, placeholders: seq<string>, state: SectionState)
    ensures IsSubsequence(WithState(lines, sections, placeholders, state), sections)
  {
    FilterOrdered(sections, Is(Finder(lines, placeholders), state));
  }

  /** Every required section lands in exactly one of the three states. */
  lemma WithStatePartition(lines: seq<string>, sections: seq<string>, placeholders: seq<string>)
    ensures |WithState(lines, sections, placeholders, Missing)| + |WithState(lines, sections, placeholders, Empty)|
              + |WithState(lines, sections, placeholders, Present)| == |sections|
  {
    var find := Finder(lines, placeholders);
    FilterPartition(sections, Is(find, Missing), Is(find, Empty), Is(find, Present));
  }

  /** What `check` reports: an unknown template, or the missing and empty
      sections in template order. */
  datatype Outcome =
    | UnknownTemplate(template: string)
    | Report(missing: seq<string>, empty: seq<string>)

  predicate Passed(o: Outcome) {
    o.Report? && o.missing == [] && o.empty == []
  }

  /** `check` without the printing and the exit code, for a given
      placeholder list. */
  function CheckWith(content: string, template: string, placeholders: seq<string>): (o: Outcome)
    ensures o.UnknownTemplate? <==> TemplateSections(template).None?
    ensures o.Report? ==> |o.missing| + |o.empty| <= |TemplateSections(template).value|
  {
    var lines := Lines(content);
    match TemplateSections(template)
    case None => UnknownTemplate(template)
    case Some(sections) =>
      WithStatePartition(lines, sections, placeholders);
      Report(WithState(lines, sections, placeholders, Missing), WithState(lines, sections, placeholders, Empty))
  }

  /** `check` exactly as written, with the garbled fifth placeholder. */
  function Check(content: string, template: string): (o: Outcome)
    ensures o.UnknownTemplate? <==> TemplateSections(template).None?
    ensures o.Report? ==> |o.missing| + |o.empty| <= |TemplateSections(template).value|
  {
    CheckWith(content, template, WrittenPlaceholders)
  }

  /** `check` with the em-dash placeholder it evidently means. */
  function CheckIntended(content: string, template: string): (o: Outcome)
    ensures o.UnknownTemplate? <==> TemplateSections(template).None?
    ensures o.Report? ==> |o.missing| + |o.empty| <= |TemplateSections(template).value|
  {
    CheckWith(content, template, IntendedPlaceholders)
  }

  /** An unknown template is rejected whatever the document says. */
  lemma UnknownTemplateRejected(content: string, template: string, placeholders: seq<string>)
    requires template != "adr" && template != "handoff" && template != "design-doc"
    ensures CheckWith(content, template, placeholders) == UnknownTemplate(template)
  {
  }

  /** Nothing is missing or empty exactly when every section is present. */
  lemma NoIssuesIffAllPresent(lines: seq<string>, sections: seq<string>, placeholders: seq<string>)
    ensures WithState(lines, sections, placeholders, Missing) == [] && WithState(lines, sections, placeholders, Empty) == [] <==>
              forall i :: 0 <= i < |sections| ==> FindSectionWith(lines, sections[i], placeholders) == Present
  {
    var find := Finder(lines, placeholders);
    FilterEmpty(sections, Is(find, Missing));
    FilterEmpty(sections, Is(find, Empty));
  }

  /** The check passes exactly when the template is known and every one of
      its sections is present, whichever placeholder list it uses. */
  lemma PassedIffAllPresent(content: string, template: string, placeholders: seq<string>)
    ensures Passed(CheckWith(content, template, placeholders)) <==>
              && TemplateSections(template).Some?
              && forall i :: 0 <= i < |TemplateSections(template).value| ==>
                   StateOf(content, TemplateSections(template).value[i], placeholders) == Present
  {
    if TemplateSections(template).Some? {
      NoIssuesIffAllPresent(Lines(content), TemplateSections(template).value, placeholders);
    }
  }

  /** The loop of `check`: one pass over the sections, pushing each missing
      one onto `missing` and each empty one onto `empty`. */
  method CheckSections(lines: seq<string>, sections: seq<string>, placeholders: seq<string>)
    returns (missing: seq<string>, empty: seq<string>)
    ensures missing == WithState(lines, sections, placeholders, Missing)
    ensures empty == WithState(lines, sections, placeholders, Empty)
  {
    missing, empty := SortOut(sections, Finder(lines, placeholders), Missing, Empty);
  }
}
