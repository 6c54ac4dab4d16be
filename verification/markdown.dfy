/** The markdown normaliser that feeds the readability score
    (`strip_markdown` and its helpers in readability.rs): a line-by-line
    state machine that drops frontmatter, fenced code, headings and table
    rows, then cleans each surviving line of inline code, link syntax and
    emphasis markers, and joins what is left with single spaces. */
module Markdown {
  import opened Text
  import opened Seqs

  // ---------------------------------------------------------------------
  // remove_pattern: inline code
  // ---------------------------------------------------------------------

  /** `remove_pattern(text, open, close)`: every span from an `open` to the
      next `close` is dropped, both delimiters included; an unclosed span
      runs to the end of the text. */
  function RemovePattern(text: string, open: char, close: char): (r: string)
    ensures |r| <= |text|
    ensures open !in r
    ensures open !in text ==> r == text
  {
    RemovePatternFrom(text, open, close, false)
  }

  /** The scan of `remove_pattern`, with `inside` the state of its flag. */
  function RemovePatternFrom(text: string, open: char, close: char, inside: bool): (r: string)
    ensures |r| <= |text|
    ensures open !in r
    ensures !inside && open !in text ==> r == text
    decreases |text|
  {
    if text == [] then []
    else
      var c := text[0];
      if c == open && !inside then RemovePatternFrom(text[1..], open, close, true)
      else if c == close && inside then RemovePatternFrom(text[1..], open, close, false)
      else if !inside then [c] + RemovePatternFrom(text[1..], open, close, false)
      else RemovePatternFrom(text[1..], open, close, true)
  }

  /** Only characters of the input survive. */
  lemma {:induction false} RemovePatternPreserves(text: string, open: char, close: char, inside: bool, p: char -> bool)
    requires All(text, p)
    ensures All(RemovePatternFrom(text, open, close, inside), p)
    decreases |text|
  {
    if text != [] {
      RemovePatternPreserves(text[1..], open, close, true, p);
      RemovePatternPreserves(text[1..], open, close, false, p);
    }
  }

  /** Concatenates every other piece, starting with the first when `keep`. */
  function Alternate(pieces: seq<string>, keep: bool): string
    decreases |pieces|
  {
    if pieces == [] then []
    else (if keep then pieces[0] else []) + Alternate(pieces[1..], !keep)
  }

  /** With one delimiter character for both ends, `remove_pattern` keeps
      exactly the text outside delimiter pairs: the 1st, 3rd, 5th, ... of the
      pieces that splitting at the delimiter produces. */
  lemma RemovePatternKeepsOutside(text: string, delim: char)
    ensures RemovePattern(text, delim, delim) == Alternate(Split(text, delim), true)
  {
    RemovePatternFromAlternate(text, delim, false);
  }

  lemma {:induction false} RemovePatternFromAlternate(text: string, delim: char, inside: bool)
    ensures RemovePatternFrom(text, delim, delim, inside) == Alternate(Split(text, delim), !inside)
    decreases |text|
  {
    if text != [] {
      var rest := Split(text[1..], delim);
      if text[0] == delim {
        RemovePatternFromAlternate(text[1..], delim, !inside);
        assert Split(text, delim)[1..] == rest;
      } else {
        RemovePatternFromAlternate(text[1..], delim, inside);
        var pieces := Split(text, delim);
        assert pieces[1..] == rest[1..];
        assert Alternate(rest, !inside) == (if !inside then rest[0] else []) + Alternate(rest[1..], inside);
        if !inside {
          assert Alternate(pieces, true) == ([text[0]] + rest[0]) + Alternate(rest[1..], false);
        }
      }
    }
  }

  // ---------------------------------------------------------------------
  // remove_markdown_links
  // ---------------------------------------------------------------------

  /** Position of the first `c` in `s`, or `|s|` when there is none. */
  function FindChar(s: string, c: char): (n: nat)
    ensures n <= |s|
    ensures forall i :: 0 <= i < n ==> s[i] != c
    ensures n < |s| ==> s[n] == c
  {
    if s == [] || s[0] == c then 0 else 1 + FindChar(s[1..], c)
  }

  /** `remove_markdown_links`: `[t](u)` becomes `t`, a closed `[t]` not
      followed by `(` becomes `t`, and an unclosed `[` is kept literally
      together with the rest of the text. */
  function RemoveLinks(text: string): (r: string)
    ensures |r| <= |text|
    ensures '[' !in text ==> r == text
    decreases |text|, 0
  {
    if text == [] then []
    else if text[0] != '[' then [text[0]] + RemoveLinks(text[1..])
    else
      var rest := text[1..];
      var j := FindChar(rest, ']');
      if j == |rest| then text
      else rest[..j] + AfterLabel(rest[j + 1..])
  }

  /** What follows a closed `[linkText]`: a `(url)` part is dropped up to
      its `)` (or to the end when there is none), and scanning resumes. */
  function AfterLabel(after: string): (r: string)
    ensures |r| <= |after|
    decreases |after|, 1
  {
    if after != [] && after[0] == '(' then
      var url := after[1..];
      var k := FindChar(url, ')');
      if k == |url| then [] else RemoveLinks(url[k + 1..])
    else RemoveLinks(after)
  }

  /** Only characters of the input survive. */
  lemma {:induction false} RemoveLinksPreserves(text: string, p: char -> bool)
    requires All(text, p)
    ensures All(RemoveLinks(text), p)
    decreases |text|, 0
  {
    if text != [] && text[0] != '[' {
      RemoveLinksPreserves(text[1..], p);
    } else if text != [] {
      var rest := text[1..];
      var j := FindChar(rest, ']');
      if j < |rest| {
        assert All(rest[..j], p);
        AfterLabelPreserves(rest[j + 1..], p);
      }
    }
  }

  lemma {:induction false} AfterLabelPreserves(after: string, p: char -> bool)
    requires All(after, p)
    ensures All(AfterLabel(after), p)
    decreases |after|, 1
  {
    if after != [] && after[0] == '(' {
      var url := after[1..];
      var k := FindChar(url, ')');
      if k < |url| {
        RemoveLinksPreserves(url[k + 1..], p);
      }
    } else {
      RemoveLinksPreserves(after, p);
    }
  }

  lemma FindCharAt(x: string, c: char, y: string)
    requires c !in x
    ensures FindChar(x + [c] + y, c) == |x|
  {
    var s := x + [c] + y;
    var n := FindChar(s, c);
    assert s[|x|] == c;
    assert forall i :: 0 <= i < |x| ==> s[i] == x[i];
  }

  /** Text before the first `[` passes through unchanged. */
  lemma {:induction false} RemoveLinksPrefix(p: string, x: string)
    requires '[' !in p
    ensures RemoveLinks(p + x) == p + RemoveLinks(x)
    decreases |p|
  {
    if p != [] {
      assert (p + x)[0] == p[0];
      assert (p + x)[1..] == p[1..] + x;
      RemoveLinksPrefix(p[1..], x);
      assert p == [p[0]] + p[1..];
    } else {
      assert p + x == x;
    }
  }

  /** An inline link `[linkText](url)` is replaced by its linkText. */
  lemma InlineLinkBecomesLabel(p: string, linkText: string, url: string, s: string)
    requires '[' !in p && ']' !in linkText && ')' !in url
    ensures RemoveLinks(p + "[" + linkText + "](" + url + ")" + s) == p + linkText + RemoveLinks(s)
  {
    var link := "[" + linkText + "](" + url + ")" + s;
    assert p + "[" + linkText + "](" + url + ")" + s == p + link;
    RemoveLinksPrefix(p, link);
    LinkAtStart(linkText, url, s);
  }

  lemma LinkAtStart(linkText: string, url: string, s: string)
    requires ']' !in linkText && ')' !in url
    ensures RemoveLinks("[" + linkText + "](" + url + ")" + s) == linkText + RemoveLinks(s)
  {
    var after := "(" + url + ")" + s;
    assert "[" + linkText + "](" + url + ")" + s == "[" + linkText + "]" + after;
    LabelAtStart(linkText, after);
    UrlDropped(url, s);
  }

  /** A closed `[linkText]` at the start becomes its linkText. */
  lemma LabelAtStart(linkText: string, after: string)
    requires ']' !in linkText
    ensures RemoveLinks("[" + linkText + "]" + after) == linkText + AfterLabel(after)
  {
    var rest := ("[" + linkText + "]" + after)[1..];
    assert rest == linkText + [']'] + after;
    FindCharAt(linkText, ']', after);
    assert rest[..|linkText|] == linkText;
    assert rest[|linkText| + 1..] == after;
  }

  /** A `(url)` part after a label is dropped. */
  lemma UrlDropped(url: string, s: string)
    requires ')' !in url
    ensures AfterLabel("(" + url + ")" + s) == RemoveLinks(s)
  {
    var u := ("(" + url + ")" + s)[1..];
    assert u == url + [')'] + s;
    FindCharAt(url, ')', s);
    assert u[|url| + 1..] == s;
  }

  /** A closed `[linkText]` that no `(` follows is replaced by its linkText. */
  lemma BracketBecomesLabel(p: string, linkText: string, s: string)
    requires '[' !in p && ']' !in linkText
    requires s == [] || s[0] != '('
    ensures RemoveLinks(p + "[" + linkText + "]" + s) == p + linkText + RemoveLinks(s)
  {
    var link := "[" + linkText + "]" + s;
    assert p + "[" + linkText + "]" + s == p + link;
    RemoveLinksPrefix(p, link);
    LabelAtStart(linkText, s);
  }

  /** A `[` that is never closed is kept, and so is everything after it. */
  lemma UnclosedBracketKept(p: string, s: string)
    requires '[' !in p && ']' !in s
    ensures RemoveLinks(p + "[" + s) == p + "[" + s
  {
    var link := "[" + s;
    assert p + "[" + s == p + link;
    RemoveLinksPrefix(p, link);
    assert link[1..] == s;
  }

  // ---------------------------------------------------------------------
  // Emphasis markers
  // ---------------------------------------------------------------------

  predicate IsEmphasisMarker(c: char) {
    c == '*' || c == '_'
  }

  /** `str::replace("cc", "")`: deletes non-overlapping doubled `c`, left to right. */
  function RemovePairs(s: string, c: char): (r: string)
    ensures |r| <= |s|
    decreases |s|
  {
    if |s| >= 2 && s[0] == c && s[1] == c then RemovePairs(s[2..], c)
    else if s == [] then []
    else [s[0]] + RemovePairs(s[1..], c)
  }

  predicate NotMarker(c: char) {
    !IsEmphasisMarker(c)
  }

  /** `str::replace(['*', '_'], "")`: deletes every single marker. */
  function DropMarkers(s: string): (r: string)
    ensures forall i :: 0 <= i < |r| ==> !IsEmphasisMarker(r[i])
    ensures (forall i :: 0 <= i < |s| ==> !IsEmphasisMarker(s[i])) ==> r == s
    decreases |s|
  {
    if s == [] then []
    else if IsEmphasisMarker(s[0]) then DropMarkers(s[1..])
    else [s[0]] + DropMarkers(s[1..])
  }

  /** Deleting markers keeps every other character, in order: it is the
      filter that keeps the non-markers. */
  lemma {:induction false} DropMarkersIsFilter(s: string)
    ensures DropMarkers(s) == Filter(s, NotMarker)
    decreases |s|
  {
    if s != [] {
      assert s == [s[0]] + s[1..];
      FilterConcat([s[0]], s[1..], NotMarker);
      FilterSnoc([], s[0], NotMarker);
      assert [] + [s[0]] == [s[0]];
      DropMarkersIsFilter(s[1..]);
    }
  }

  /** Deleting markers distributes over concatenation. */
  lemma DropMarkersConcat(a: string, b: string)
    ensures DropMarkers(a + b) == DropMarkers(a) + DropMarkers(b)
  {
    DropMarkersIsFilter(a + b);
    DropMarkersIsFilter(a);
    DropMarkersIsFilter(b);
    FilterConcat(a, b, NotMarker);
  }

  /** The emphasis step of `strip_markdown`: `**` and `__` first, then the
      single markers. */
  function RemoveEmphasis(s: string): (r: string)
    ensures forall i :: 0 <= i < |r| ==> !IsEmphasisMarker(r[i])
  {
    DropMarkers(RemovePairs(RemovePairs(s, '*'), '_'))
  }

  /** Whatever the order of the replacements, the emphasis step keeps
      exactly the characters that are not markers, in order. */
  lemma RemoveEmphasisKeeps(s: string)
    ensures RemoveEmphasis(s) == Filter(s, NotMarker)
  {
    RemoveEmphasisIsDropMarkers(s);
    DropMarkersIsFilter(s);
  }

  /** Deleting doubled markers first makes no difference: the emphasis step
      is single-marker deletion. */
  lemma RemoveEmphasisIsDropMarkers(s: string)
    ensures RemoveEmphasis(s) == DropMarkers(s)
  {
    DropMarkersRemovePairs(RemovePairs(s, '*'), '_');
    DropMarkersRemovePairs(s, '*');
  }

  /** A word with no marker in it passes the emphasis step unchanged even
      when markup surrounds it: word content and word order are kept. */
  lemma EmphasisAroundWordDropped(pre: string, word: string, post: string)
    requires forall i :: 0 <= i < |pre| ==> IsEmphasisMarker(pre[i])
    requires forall i :: 0 <= i < |post| ==> IsEmphasisMarker(post[i])
    requires forall i :: 0 <= i < |word| ==> !IsEmphasisMarker(word[i])
    ensures RemoveEmphasis(pre + word + post) == word
  {
    RemoveEmphasisIsDropMarkers(pre + word + post);
    DropMarkersConcat(pre + word, post);
    DropMarkersConcat(pre, word);
    DropMarkersIsFilter(pre);
    DropMarkersIsFilter(post);
    FilterEmpty(pre, NotMarker);
    FilterEmpty(post, NotMarker);
  }

  /** Only characters of the input survive. */
  lemma RemoveEmphasisPreserves(s: string, p: char -> bool)
    requires All(s, p)
    ensures All(RemoveEmphasis(s), p)
  {
    RemoveEmphasisIsDropMarkers(s);
    DropMarkersPreserves(s, p);
  }

  lemma {:induction false} DropMarkersPreserves(s: string, p: char -> bool)
    requires All(s, p)
    ensures All(DropMarkers(s), p)
    decreases |s|
  {
    if s != [] {
      DropMarkersPreserves(s[1..], p);
    }
  }

  lemma {:induction false} DropMarkersRemovePairs(s: string, c: char)
    requires IsEmphasisMarker(c)
    ensures DropMarkers(RemovePairs(s, c)) == DropMarkers(s)
    decreases |s|
  {
    if |s| >= 2 && s[0] == c && s[1] == c {
      assert s[1..][1..] == s[2..];
      assert DropMarkers(s) == DropMarkers(s[2..]);
      DropMarkersRemovePairs(s[2..], c);
    } else if s != [] {
      var t := RemovePairs(s[1..], c);
      assert RemovePairs(s, c) == [s[0]] + t;
      assert ([s[0]] + t)[0] == s[0];
      assert ([s[0]] + t)[1..] == t;
      DropMarkersRemovePairs(s[1..], c);
    }
  }

  // ---------------------------------------------------------------------
  // strip_markdown
  // ---------------------------------------------------------------------

  /** No backtick and no emphasis marker. */
  predicate IsProse(s: string) {
    forall i :: 0 <= i < |s| ==> s[i] != '`' && !IsEmphasisMarker(s[i])
  }

  /** What every surviving line becomes: non-empty, trimmed, free of markup. */
  predicate IsSegment(s: string) {
    s != [] && IsTrimmed(s) && IsProse(s)
  }

  /** How the skipping rules of `strip_markdown` see a line. The tests are
      mutually exclusive, so every line has exactly one kind. */
  datatype LineKind =
    | Rule          // trims to `---`
    | Fence         // three backticks after leading whitespace
    | HeadingOrRow  // `#` or `|` after leading whitespace
    | Other

  function Kind(line: string): (k: LineKind)
    ensures k == Rule <==> Trim(line) == "---"
    ensures k == Fence <==> StartsWith(TrimStart(line), "```")
    ensures k == HeadingOrRow <==> StartsWith(TrimStart(line), "#") || StartsWith(TrimStart(line), "|")
  {
    var t := TrimStart(line);
    NonBlankTrim(line, t);
    if Trim(line) == "---" then Rule
    else if StartsWith(t, "```") then Fence
    else if StartsWith(t, "#") || StartsWith(t, "|") then HeadingOrRow
    else Other
  }

  /** The trimmed form of a line starts where its left-trimmed form does. */
  lemma NonBlankTrim(line: string, t: string)
    requires t == TrimStart(line)
    ensures t != [] ==> Trim(line) != [] && Trim(line)[0] == t[0]
  {
  }

  /** The kind of every line. */
  function Kinds(lines: seq<string>): (r: seq<LineKind>)
    ensures |r| == |lines|
  {
    Map(Kind, lines)
  }

  lemma KindsAt(lines: seq<string>, i: nat)
    requires i < |lines|
    ensures Kinds(lines)[i] == Kind(lines[i])
  {
    MapAt(Kind, lines, i);
  }

  lemma KindsSuffix(lines: seq<string>, n: nat)
    requires n <= |lines|
    ensures Kinds(lines)[n..] == Kinds(lines[n..])
  {
    MapSuffix(Kind, lines, n);
  }


  /** Drops one leading `>` and the whitespace after it; a line without the
      marker is kept as it is, leading whitespace included. */
  function Unquote(line: string): string {
    var t := TrimStart(line);
    if StartsWith(t, ">") then TrimStart(t[1..]) else line
  }

  /** A quoted line loses its indentation, exactly one `>`, and the
      whitespace after it; a second `>` is kept. */
  lemma QuoteMarkerDropped(pad: string, rest: string)
    requires AllWhitespace(pad)
    ensures Unquote(pad + ">" + rest) == TrimStart(rest)
  {
    var marked := ">" + rest;
    assert pad + ">" + rest == pad + marked;
    assert !IsWhitespace(marked[0]);
    TrimStartPadded(pad, marked);
    assert StartsWith(marked, ">");
    assert marked[1..] == rest;
  }

  /** A line whose first non-blank character is not `>` is left exactly as
      it is, leading whitespace included. */
  lemma UnquotedLineKept(line: string)
    requires TrimStart(line) == [] || TrimStart(line)[0] != '>'
    ensures Unquote(line) == line
  {
  }

  /** A quoted line loses its marker and the space after it. */
  lemma QuotedLine()
    ensures Unquote("> hi") == "hi"
  {
    assert AllWhitespace(" ");
    assert !IsWhitespace('h');
    TrimStartPadded(" ", "hi");
    assert " " + "hi" == " hi";
    assert TrimStart(" hi") == "hi";
    QuoteMarkerDropped([], " hi");
    assert [] + ">" + " hi" == "> hi";
  }

  /** A nested quote loses only its outer marker. */
  lemma NestedQuoteOneLevel()
    ensures Unquote(">> hi") == "> hi"
  {
    QuoteMarkerDropped([], "> hi");
    assert [] + ">" + "> hi" == ">> hi";
    TrimStartPadded([], "> hi");
  }

  /** The per-line cleaning: blockquote marker, inline code, links, emphasis. */
  function CleanLine(line: string): (r: string)
    ensures IsProse(r)
  {
    var noCode := RemovePattern(Unquote(line), '`', '`');
    var noLinks := RemoveLinks(noCode);
    RemoveLinksPreserves(noCode, c => c != '`');
    RemoveEmphasisPreserves(noLinks, c => c != '`');
    RemoveEmphasis(noLinks)
  }

  /** Cleaning only deletes characters: whatever holds of every character of
      the line holds of every character of the result. */
  lemma CleanLinePreserves(line: string, p: char -> bool)
    requires All(line, p)
    ensures All(CleanLine(line), p)
  {
    var t := TrimStart(line);
    TrimStartPreserves(line, p);
    if StartsWith(t, ">") {
      assert All(t[1..], p);
      TrimStartPreserves(t[1..], p);
    }
    var unquoted := Unquote(line);
    RemovePatternPreserves(unquoted, '`', '`', false, p);
    var noCode := RemovePattern(unquoted, '`', '`');
    RemoveLinksPreserves(noCode, p);
    RemoveEmphasisPreserves(RemoveLinks(noCode), p);
  }

  /** What a surviving line contributes: its cleaned, trimmed text, unless that is empty. */
  function Finish(line: string): (r: Option<string>)
    ensures r.Some? ==> IsSegment(r.value)
    ensures r.None? <==> AllWhitespace(CleanLine(line))
  {
    var cleaned := CleanLine(line);
    var t := Trim(cleaned);
    TrimPreserves(cleaned, c => c != '`' && !IsEmphasisMarker(c));
    if t == [] then None else Some(t)
  }

  /** The two flags of `strip_markdown`, and how many lines it has read. */
  datatype Scan = Scan(lineNum: nat, inFrontmatter: bool, inCodeBlock: bool)

  const Start: Scan := Scan(0, false, false)

  /** What one line does: the next state, and whether the line reaches the cleaning stage. */
  datatype Step = Step(next: Scan, keep: bool)

  /** The line-skipping decisions of one iteration of the `strip_markdown` loop. */
  function ScanLine(st: Scan, kind: LineKind): (r: Step)
    ensures r.next.lineNum == st.lineNum + 1
    ensures r.keep <==>
              && !st.inFrontmatter && !st.inCodeBlock
              && kind != Fence && kind != HeadingOrRow
              && (st.lineNum == 0 ==> kind != Rule)
    ensures r.keep ==> !r.next.inFrontmatter && !r.next.inCodeBlock
  {
    var n := st.lineNum + 1;
    if kind == Rule && n == 1 then Step(st.(lineNum := n, inFrontmatter := true), false)
    else if kind == Rule && st.inFrontmatter then Step(st.(lineNum := n, inFrontmatter := false), false)
    else if st.inFrontmatter then Step(st.(lineNum := n), false)
    else if kind == Fence then Step(st.(lineNum := n, inCodeBlock := !st.inCodeBlock), false)
    else if st.inCodeBlock then Step(st.(lineNum := n), false)
    else if kind == HeadingOrRow then Step(st.(lineNum := n), false)
    else Step(st.(lineNum := n), true)
  }

  /** Which lines reach the cleaning stage, starting in state `st`. */
  function Keeps(st: Scan, kinds: seq<LineKind>): (r: seq<bool>)
    ensures |r| == |kinds|
    decreases |kinds|
  {
    if kinds == [] then []
    else
      var step := ScanLine(st, kinds[0]);
      [step.keep] + Keeps(step.next, kinds[1..])
  }

  /** The elements of `xs` whose mask entry is true, in order. */
  function Select<T>(xs: seq<T>, mask: seq<bool>): (r: seq<T>)
    requires |mask| == |xs|
    ensures |r| <= |xs|
    decreases |xs|
  {
    if xs == [] then []
    else (if mask[0] then [xs[0]] else []) + Select(xs[1..], mask[1..])
  }

  /** The lines that reach the cleaning stage, in order. */
  function KeptLines(lines: seq<string>): seq<string> {
    Select(lines, Keeps(Start, Kinds(lines)))
  }

  /** The contributions of the kept lines, in order. */
  function FinishAll(lines: seq<string>): (r: seq<string>)
    ensures forall i :: 0 <= i < |r| ==> IsSegment(r[i])
  {
    CollectPreserves(Finish, lines, IsSegment);
    Collect(Finish, lines)
  }

  /** The cleaned, non-empty, trimmed lines of a document, in order. */
  function Segments(text: string): (r: seq<string>)
    ensures forall i :: 0 <= i < |r| ==> IsSegment(r[i])
  {
    FinishAll(KeptLines(Lines(text)))
  }

  /** Each segment followed by one space. */
  function JoinSegments(segments: seq<string>): string
    decreases |segments|
  {
    if segments == [] then [] else segments[0] + " " + JoinSegments(segments[1..])
  }

  /** Empty, or trimmed non-empty text followed by exactly one space. */
  predicate IsSpaced(r: string) {
    r == [] || (|r| >= 2 && r[|r| - 1] == ' ' && IsTrimmed(r[..|r| - 1]))
  }

  /** `strip_markdown`: no inline-code or emphasis character survives, and
      the result is empty or trimmed text followed by exactly one space. */
  function StripMarkdown(text: string): (r: string)
    ensures IsProse(r) && IsSpaced(r)
  {
    var segments := Segments(text);
    JoinedProse(segments);
    JoinSegments(segments)
  }

  lemma {:induction false} JoinedProse(segments: seq<string>)
    requires forall i :: 0 <= i < |segments| ==> IsSegment(segments[i])
    ensures IsProse(JoinSegments(segments)) && IsSpaced(JoinSegments(segments))
    decreases |segments|
  {
    if segments != [] {
      JoinedProse(segments[1..]);
      var head := segments[0] + " ";
      var tail := JoinSegments(segments[1..]);
      var r := head + tail;
      assert forall i :: 0 <= i < |head| ==> r[i] == head[i];
      assert forall i :: |head| <= i < |r| ==> r[i] == tail[i - |head|];
      assert r[0] == segments[0][0];
      if tail == [] {
        assert r[..|r| - 1] == segments[0];
      } else {
        assert r[|r| - 1] == tail[|tail| - 1];
        assert r[|r| - 2] == tail[|tail| - 2];
      }
    }
  }

  // ---------------------------------------------------------------------
  // What the state machine drops and what it keeps
  // ---------------------------------------------------------------------

  /** `n` lines dropped. */
  function Dropped(n: nat): (r: seq<bool>)
    ensures |r| == n
  {
    if n == 0 then [] else [false] + Dropped(n - 1)
  }

  /** Inside frontmatter, lines other than `---` are all dropped. */
  lemma {:induction false} FrontmatterBodySkipped(st: Scan, kinds: seq<LineKind>, k: nat)
    requires st.inFrontmatter && st.lineNum >= 1
    requires k <= |kinds|
    requires forall j :: 0 <= j < k ==> kinds[j] != Rule
    ensures Keeps(st, kinds) == Dropped(k) + Keeps(st.(lineNum := st.lineNum + k), kinds[k..])
    decreases k
  {
    if k > 0 {
      FrontmatterBodySkipped(st.(lineNum := st.lineNum + 1), kinds[1..], k - 1);
      assert kinds[1..][k - 1..] == kinds[k..];
      assert Dropped(k) == [false] + Dropped(k - 1);
    }
  }

  /** A frontmatter block opened by `---` on the first line is dropped up to
      and including the next `---` line; scanning resumes after it with both
      flags clear. */
  lemma FrontmatterDropped(kinds: seq<LineKind>, k: nat)
    requires 0 < k < |kinds|
    requires kinds[0] == Rule && kinds[k] == Rule
    requires forall j :: 0 < j < k ==> kinds[j] != Rule
    ensures Keeps(Start, kinds) == Dropped(k + 1) + Keeps(Scan(k + 1, false, false), kinds[k + 1..])
  {
    var rest := Keeps(Scan(k + 1, false, false), kinds[k + 1..]);
    var body := Keeps(Scan(1, true, false), kinds[1..]);
    assert Keeps(Start, kinds) == [false] + body;
    FrontmatterBodySkipped(Scan(1, true, false), kinds[1..], k - 1);
    assert kinds[1..][k - 1..] == kinds[k..];
    ClosingRuleDropped(k, kinds[k..]);
    assert kinds[k..][1..] == kinds[k + 1..];
    assert body == Dropped(k - 1) + ([false] + rest);
    DroppedSnoc(k - 1);
    DroppedCons(k);
  }

  /** The `---` that closes frontmatter is dropped and closes it. */
  lemma ClosingRuleDropped(k: nat, kinds: seq<LineKind>)
    requires k >= 1 && kinds != [] && kinds[0] == Rule
    ensures Keeps(Scan(k, true, false), kinds) == [false] + Keeps(Scan(k + 1, false, false), kinds[1..])
  {
  }

  lemma DroppedCons(n: nat)
    ensures Dropped(n + 1) == [false] + Dropped(n)
  {
  }

  lemma {:induction false} DroppedSnoc(n: nat)
    ensures Dropped(n + 1) == Dropped(n) + [false]
  {
    if n > 0 {
      DroppedSnoc(n - 1);
    }
  }

  /** A frontmatter block that is never closed swallows the whole document. */
  lemma UnclosedFrontmatterDropsAll(kinds: seq<LineKind>)
    requires |kinds| >= 1 && kinds[0] == Rule
    requires forall j :: 0 < j < |kinds| ==> kinds[j] != Rule
    ensures Keeps(Start, kinds) == Dropped(|kinds|)
  {
    var tail := kinds[1..];
    assert Keeps(Start, kinds) == [false] + Keeps(Scan(1, true, false), tail);
    assert forall j :: 0 <= j < |tail| ==> tail[j] == kinds[j + 1];
    FrontmatterBodySkipped(Scan(1, true, false), tail, |tail|);
    assert tail[|tail|..] == [];
    assert Dropped(|kinds|) == [false] + Dropped(|tail|);
  }

  /** Inside a code block, lines other than a fence are all dropped. */
  lemma {:induction false} CodeBodySkipped(st: Scan, kinds: seq<LineKind>, k: nat)
    requires !st.inFrontmatter && st.inCodeBlock && st.lineNum >= 1
    requires k <= |kinds|
    requires forall j :: 0 <= j < k ==> kinds[j] != Fence
    ensures Keeps(st, kinds) == Dropped(k) + Keeps(st.(lineNum := st.lineNum + k), kinds[k..])
    decreases k
  {
    if k > 0 {
      CodeBodySkipped(st.(lineNum := st.lineNum + 1), kinds[1..], k - 1);
      assert kinds[1..][k - 1..] == kinds[k..];
      assert Dropped(k) == [false] + Dropped(k - 1);
    }
  }

  /** A fenced code block is dropped from its opening fence through its
      closing fence, whatever the lines between hold, `---` lines included. */
  lemma CodeBlockDropped(st: Scan, kinds: seq<LineKind>, k: nat)
    requires !st.inFrontmatter && !st.inCodeBlock
    requires 0 < k < |kinds|
    requires kinds[0] == Fence && kinds[k] == Fence
    requires forall j :: 0 < j < k ==> kinds[j] != Fence
    ensures Keeps(st, kinds) == Dropped(k + 1) + Keeps(Scan(st.lineNum + k + 1, false, false), kinds[k + 1..])
  {
    var tail := kinds[1..];
    var rest := Keeps(Scan(st.lineNum + k + 1, false, false), kinds[k + 1..]);
    assert kinds[k..][1..] == kinds[k + 1..];
    assert Keeps(Scan(st.lineNum + k, false, true), kinds[k..]) == [false] + rest;
    CodeBodySkipped(Scan(st.lineNum + 1, false, true), tail, k - 1);
    assert tail[k - 1..] == kinds[k..];
    assert Keeps(st, kinds) == [false] + (Dropped(k - 1) + ([false] + rest));
    DroppedSnoc(k - 1);
    assert Dropped(k + 1) == [false] + (Dropped(k - 1) + [false]);
  }

  /** Heading lines and table rows outside code and frontmatter are dropped. */
  lemma HeadingOrRowDropped(st: Scan, kinds: seq<LineKind>)
    requires !st.inFrontmatter && !st.inCodeBlock
    requires |kinds| >= 1 && kinds[0] == HeadingOrRow
    ensures Keeps(st, kinds) == [false] + Keeps(Scan(st.lineNum + 1, false, false), kinds[1..])
  {
  }

  /** Dropped lines disappear from the selection. */
  lemma {:induction false} SelectAfterDropped<T>(xs: seq<T>, n: nat, mask: seq<bool>)
    requires n + |mask| == |xs|
    ensures Select(xs, Dropped(n) + mask) == Select(xs[n..], mask)
    decreases n
  {
    if n > 0 {
      var m := Dropped(n - 1) + mask;
      SelectAfterDropped(xs[1..], n - 1, mask);
      assert xs[1..][n - 1..] == xs[n..];
      assert (Dropped(n) + mask)[1..] == m;
    } else {
      assert Dropped(n) + mask == mask;
    }
  }

  /** A document opening with a frontmatter block normalises as if the block
      (delimiters included) were not there and the text started after it. */
  lemma FrontmatterIgnored(lines: seq<string>, k: nat)
    requires 0 < k < |lines|
    requires Trim(lines[0]) == "---" && Trim(lines[k]) == "---"
    requires forall j :: 0 < j < k ==> Trim(lines[j]) != "---"
    ensures KeptLines(lines) == Select(lines[k + 1..], Keeps(Scan(k + 1, false, false), Kinds(lines[k + 1..])))
  {
    var kinds := Kinds(lines);
    KindsAt(lines, 0);
    KindsAt(lines, k);
    forall j | 0 < j < k ensures kinds[j] != Rule {
      KindsAt(lines, j);
    }
    FrontmatterDropped(kinds, k);
    KindsSuffix(lines, k + 1);
    var rest := Keeps(Scan(k + 1, false, false), Kinds(lines[k + 1..]));
    assert Keeps(Start, kinds) == Dropped(k + 1) + rest;
    SelectAfterDropped(lines, k + 1, rest);
  }

  /** Each selected element satisfies every property all elements share. */
  lemma {:induction false} SelectPreserves<T>(xs: seq<T>, mask: seq<bool>, p: T -> bool)
    requires |mask| == |xs|
    requires forall i :: 0 <= i < |xs| ==> p(xs[i])
    ensures forall i :: 0 <= i < |Select(xs, mask)| ==> p(Select(xs, mask)[i])
    decreases |xs|
  {
    if xs != [] {
      SelectPreserves(xs[1..], mask[1..], p);
    }
  }

  /** Neither backtick, bracket nor emphasis marker. */
  predicate IsPlainChar(c: char) {
    c != '`' && c != '[' && !IsEmphasisMarker(c)
  }

  /** No markdown syntax at all: only plain characters, and no heading,
      table or blockquote marker at the start. */
  predicate IsPlainProse(line: string) {
    && All(line, IsPlainChar)
    && var t := TrimStart(line);
       t == [] || (t[0] != '#' && t[0] != '|' && t[0] != '>')
  }

  /** A plain-prose line survives cleaning as its trimmed self. */
  lemma PlainLineFinished(line: string)
    requires IsPlainProse(line)
    ensures Finish(line) == Trimmed(line)
  {
    PlainLineClean(line);
  }

  /** Cleaning leaves a plain-prose line exactly as it is. */
  lemma PlainLineClean(line: string)
    requires IsPlainProse(line)
    ensures CleanLine(line) == line
  {
    assert Unquote(line) == line;
    assert '`' !in line && '[' !in line by {
      forall i | 0 <= i < |line| ensures line[i] != '`' && line[i] != '[' {
        assert IsPlainChar(line[i]);
      }
    }
    RemoveEmphasisIsDropMarkers(line);
  }

  /** Outside code and frontmatter, lines that are neither fences nor
      headings nor table rows are all kept; a `---` line counts as prose
      everywhere but on the first line. */
  lemma {:induction false} ProseKindsKept(st: Scan, kinds: seq<LineKind>)
    requires !st.inFrontmatter && !st.inCodeBlock
    requires forall i :: 0 <= i < |kinds| ==> kinds[i] == Rule || kinds[i] == Other
    requires |kinds| >= 1 && st.lineNum == 0 ==> kinds[0] != Rule
    ensures forall i :: 0 <= i < |kinds| ==> Keeps(st, kinds)[i]
    decreases |kinds|
  {
    if kinds != [] {
      ProseKindsKept(Scan(st.lineNum + 1, false, false), kinds[1..]);
    }
  }

  /** Selecting with an all-true mask keeps everything. */
  lemma {:induction false} SelectAll<T>(xs: seq<T>, mask: seq<bool>)
    requires |mask| == |xs| && forall i :: 0 <= i < |mask| ==> mask[i]
    ensures Select(xs, mask) == xs
    decreases |xs|
  {
    if xs != [] {
      SelectAll(xs[1..], mask[1..]);
    }
  }

  /** The trimmed, non-blank lines, in order. */
  function NonBlank(lines: seq<string>): seq<string> {
    Collect(Trimmed, lines)
  }

  /** A line's trimmed form, or nothing when it is blank. */
  function Trimmed(line: string): Option<string> {
    if Trim(line) == [] then None else Some(Trim(line))
  }

  lemma PlainLinesFinished(lines: seq<string>)
    requires forall i :: 0 <= i < |lines| ==> IsPlainProse(lines[i])
    ensures FinishAll(lines) == NonBlank(lines)
  {
    forall i | 0 <= i < |lines|
      ensures Finish(lines[i]) == Trimmed(lines[i])
    {
      PlainLineFinished(lines[i]);
    }
    CollectAgree(Finish, Trimmed, lines);
  }

  /** A plain-prose line is never a fence, a heading or a table row. */
  lemma PlainLineKind(line: string)
    requires IsPlainProse(line)
    ensures Kind(line) == Rule || Kind(line) == Other
  {
    var t := TrimStart(line);
    if t != [] {
      assert t[0] == line[|line| - |t|];
      assert IsPlainChar(t[0]);
    }
  }

  /** A document of plain prose whose first line is not `---` is left as it
      is, up to whitespace: its segments are its trimmed non-blank lines. */
  lemma PlainProseUnchanged(lines: seq<string>)
    requires forall i :: 0 <= i < |lines| ==> IsPlainProse(lines[i])
    requires |lines| >= 1 ==> Trim(lines[0]) != "---"
    ensures FinishAll(KeptLines(lines)) == NonBlank(lines)
  {
    var kinds := Kinds(lines);
    forall i | 0 <= i < |lines| ensures kinds[i] == Rule || kinds[i] == Other {
      KindsAt(lines, i);
      PlainLineKind(lines[i]);
    }
    ProseKindsKept(Start, kinds);
    SelectAll(lines, Keeps(Start, kinds));
    PlainLinesFinished(lines);
  }

  /** Whitespace-only lines contribute nothing. */
  lemma BlankLinesFinishEmpty(lines: seq<string>)
    requires forall i :: 0 <= i < |lines| ==> AllWhitespace(lines[i])
    ensures FinishAll(lines) == []
  {
    forall i | 0 <= i < |lines|
      ensures Finish(lines[i]).None?
    {
      CleanLinePreserves(lines[i], IsWhitespace);
    }
    CollectEmpty(Finish, lines);
  }

  /** A document of nothing but whitespace normalises to the empty string. */
  lemma WhitespaceOnlyStripsToEmpty(text: string)
    requires AllWhitespace(text)
    ensures StripMarkdown(text) == []
  {
    LinesPreserve(text, IsWhitespace);
    var lines := Lines(text);
    SelectPreserves(lines, Keeps(Start, Kinds(lines)), AllWhitespace);
    BlankLinesFinishEmpty(KeptLines(lines));
  }
}
