/** Small string toolkit standing in for the parts of Rust's `str` and `char`
    API that the linter relies on: `trim`, `to_lowercase`, `starts_with`,
    `contains`, `split`, `lines` and `split_whitespace`.

    Whitespace is Rust's `char::is_whitespace` (the Unicode White_Space
    property, exactly). Letters and case are ASCII only: `is_alphabetic` and
    `to_lowercase` are modelled for the ASCII range, which is the assumption
    this model makes about documents. */
module Text {
  import opened Seqs

  /** The Unicode White_Space property, which is what `char::is_whitespace`
      (and hence `trim` and `split_whitespace`) tests. */
  predicate IsWhitespace(c: char) {
    || ('\t' <= c <= '\r')
    || c == ' '
    || c == '\U{85}'
    || c == '\U{A0}'
    || c == '\U{1680}'
    || ('\U{2000}' <= c <= '\U{200A}')
    || c == '\U{2028}'
    || c == '\U{2029}'
    || c == '\U{202F}'
    || c == '\U{205F}'
    || c == '\U{3000}'
  }

  /** `is_alphabetic`, restricted to ASCII. */
  predicate IsLetter(c: char) {
    ('a' <= c <= 'z') || ('A' <= c <= 'Z')
  }

  predicate NotLetter(c: char) {
    !IsLetter(c)
  }

  /** ASCII lower-casing of one character. */
  function Lower(c: char): (r: char)
    ensures IsLetter(r) <==> IsLetter(c)
    ensures !('A' <= r <= 'Z')
    ensures !IsLetter(c) ==> r == c
  {
    if 'A' <= c <= 'Z' then (c as int + 32) as char else c
  }

  /** `to_lowercase`, restricted to ASCII: every other character is kept. */
  function ToLower(s: string): (r: string)
    ensures |r| == |s|
    ensures forall i :: 0 <= i < |s| ==> r[i] == Lower(s[i])
  {
    if s == [] then [] else [Lower(s[0])] + ToLower(s[1..])
  }

  /** Every character of `s` has property `p`. */
  predicate All(s: string, p: char -> bool) {
    forall i :: 0 <= i < |s| ==> p(s[i])
  }

  predicate AllWhitespace(s: string) {
    forall i :: 0 <= i < |s| ==> IsWhitespace(s[i])
  }

  /** Neither begins nor ends with whitespace: what `trim` leaves behind. */
  predicate IsTrimmed(s: string) {
    s == [] || (!IsWhitespace(s[0]) && !IsWhitespace(s[|s| - 1]))
  }

  /** `trim_start`: drops the leading whitespace. */
  function TrimStart(s: string): (r: string)
    ensures |r| <= |s| && r == s[|s| - |r|..]
    ensures r == [] || !IsWhitespace(r[0])
    ensures forall i :: 0 <= i < |s| - |r| ==> IsWhitespace(s[i])
    decreases |s|
  {
    if s != [] && IsWhitespace(s[0]) then
      var r := TrimStart(s[1..]);
      assert forall i :: 1 <= i < |s| - |r| ==> s[1..][i - 1] == s[i];
      r
    else s
  }

  /** `trim_end`: drops the trailing whitespace. */
  function TrimEnd(s: string): (r: string)
    ensures |r| <= |s| && r == s[..|r|]
    ensures r == [] || !IsWhitespace(r[|r| - 1])
    ensures forall i :: |r| <= i < |s| ==> IsWhitespace(s[i])
    decreases |s|
  {
    if s != [] && IsWhitespace(s[|s| - 1]) then TrimEnd(s[..|s| - 1]) else s
  }

  /** `trim`: both ends, Unicode whitespace. */
  function Trim(s: string): (r: string)
    ensures IsTrimmed(r)
    ensures r == [] <==> AllWhitespace(s)
  {
    var l := TrimStart(s);
    var r := TrimEnd(l);
    assert r == [] ==> l == [];
    r
  }

  /** `trim` keeps a contiguous stretch of its input, so every property all
      input characters share holds of the result. */
  lemma TrimPreserves(s: string, p: char -> bool)
    requires All(s, p)
    ensures All(Trim(s), p)
  {
    var l := TrimStart(s);
    AllSlice(s, p, |s| - |l|, |s|);
    AllSlice(l, p, 0, |TrimEnd(l)|);
  }

  lemma TrimStartPreserves(s: string, p: char -> bool)
    requires All(s, p)
    ensures All(TrimStart(s), p)
  {
    AllSlice(s, p, |s| - |TrimStart(s)|, |s|);
  }

  /** A stretch of a string keeps every property all its characters share. */
  lemma AllSlice(s: string, p: char -> bool, lo: nat, hi: nat)
    requires All(s, p) && lo <= hi <= |s|
    ensures All(s[lo..hi], p)
  {
    assert forall i :: 0 <= i < hi - lo ==> s[lo..hi][i] == s[lo + i];
  }

  /** Trimming text that is already trimmed changes nothing. */
  lemma TrimTrimmed(s: string)
    requires IsTrimmed(s)
    ensures Trim(s) == s
  {
  }

  lemma {:induction false} TrimStartAsMatches(s: string)
    ensures TrimStart(s) == TrimStartMatches(s, IsWhitespace)
    decreases |s|
  {
    if s != [] && IsWhitespace(s[0]) {
      TrimStartAsMatches(s[1..]);
    }
  }

  lemma {:induction false} TrimEndAsMatches(s: string)
    ensures TrimEnd(s) == TrimEndMatches(s, IsWhitespace)
    decreases |s|
  {
    if s != [] && IsWhitespace(s[|s| - 1]) {
      TrimEndAsMatches(s[..|s| - 1]);
    }
  }

  /** `trim` is `trim_matches` with the whitespace test. */
  lemma TrimAsMatches(s: string)
    ensures Trim(s) == TrimMatches(s, IsWhitespace)
  {
    TrimStartAsMatches(s);
    TrimEndAsMatches(TrimStart(s));
  }

  /** Whitespace around trimmed text is all that `trim` removes. */
  lemma TrimPadded(pre: string, s: string, post: string)
    requires AllWhitespace(pre) && AllWhitespace(post) && IsTrimmed(s)
    ensures Trim(pre + s + post) == s
  {
    TrimAsMatches(pre + s + post);
    TrimAsMatches(s);
    TrimMatchesPadded(pre, s, post, IsWhitespace);
  }

  /** `trim_start` drops exactly the leading whitespace run and stops at the
      first character that is not whitespace. */
  lemma TrimStartPadded(pad: string, s: string)
    requires AllWhitespace(pad) && (s == [] || !IsWhitespace(s[0]))
    ensures TrimStart(pad + s) == s
  {
    var t := pad + s;
    var r := TrimStart(t);
    assert forall i :: 0 <= i < |pad| ==> t[i] == pad[i];
    if s != [] {
      assert t[|pad|] == s[0];
    }
    assert r == t[|pad|..];
  }

  /** `starts_with` for a string pattern. */
  predicate StartsWith(s: string, prefix: string) {
    prefix <= s
  }

  /** `contains` for a string pattern, scanning start positions left to right. */
  predicate Contains(s: string, pattern: string)
    decreases |s|
  {
    StartsWith(s, pattern) || (s != [] && Contains(s[1..], pattern))
  }

  /** `pattern` occurs in `s` at position `k`. */
  predicate OccursAt(s: string, pattern: string, k: int) {
    0 <= k <= |s| - |pattern| && s[k..k + |pattern|] == pattern
  }

  /** Text contains every string placed inside it. */
  lemma {:induction false} ContainsInside(x: string, pattern: string, y: string)
    ensures Contains(x + pattern + y, pattern)
    decreases |x|
  {
    var s := x + pattern + y;
    if x == [] {
      assert s[..|pattern|] == pattern;
    } else {
      assert s[1..] == x[1..] + pattern + y;
      ContainsInside(x[1..], pattern, y);
    }
  }

  /** A character of the pattern missing from the text rules the pattern out. */
  lemma {:induction false} ContainsChar(s: string, pattern: string, c: char)
    requires c in pattern && c !in s
    ensures !Contains(s, pattern)
    decreases |s|
  {
    if s != [] {
      assert s[1..] <= s[1..];
      assert forall x :: x in s[1..] ==> x in s;
      ContainsChar(s[1..], pattern, c);
    }
  }

  /** The scan agrees with the textbook definition of substring occurrence. */
  lemma {:induction false} ContainsIffOccurs(s: string, pattern: string)
    ensures Contains(s, pattern) <==> exists k :: OccursAt(s, pattern, k)
    decreases |s|
  {
    if StartsWith(s, pattern) {
      assert OccursAt(s, pattern, 0);
    } else if s == [] {
    } else {
      ContainsIffOccurs(s[1..], pattern);
      if exists k :: OccursAt(s, pattern, k) {
        var k :| OccursAt(s, pattern, k);
        assert k != 0;
        assert s[1..][k - 1..k - 1 + |pattern|] == s[k..k + |pattern|];
        assert OccursAt(s[1..], pattern, k - 1);
      }
      if Contains(s[1..], pattern) {
        var k :| OccursAt(s[1..], pattern, k);
        assert s[k + 1..k + 1 + |pattern|] == s[1..][k..k + |pattern|];
        assert OccursAt(s, pattern, k + 1);
      }
    }
  }

  /** `str::split(sep)`: the pieces between separators, at least one. */
  function Split(s: string, sep: char): (r: seq<string>)
    ensures |r| >= 1
    ensures forall i :: 0 <= i < |r| ==> sep !in r[i]
    decreases |s|
  {
    if s == [] then [[]]
    else
      var rest := Split(s[1..], sep);
      if s[0] == sep then [[]] + rest
      else [[s[0]] + rest[0]] + rest[1..]
  }

  /** Every piece is drawn from the text. */
  lemma {:induction false} SplitPreserves(s: string, sep: char, p: char -> bool)
    requires All(s, p)
    ensures forall i :: 0 <= i < |Split(s, sep)| ==> All(Split(s, sep)[i], p)
    decreases |s|
  {
    if s != [] {
      SplitPreserves(s[1..], sep, p);
    }
  }

  /** Joins pieces with a separator between consecutive pieces. */
  function JoinWith(pieces: seq<string>, sep: char): string
    requires |pieces| >= 1
    decreases |pieces|
  {
    if |pieces| == 1 then pieces[0] else pieces[0] + [sep] + JoinWith(pieces[1..], sep)
  }

  /** Splitting and joining with the same separator is the identity. */
  lemma {:induction false} SplitJoin(s: string, sep: char)
    ensures JoinWith(Split(s, sep), sep) == s
    decreases |s|
  {
    if s != [] {
      var rest := Split(s[1..], sep);
      SplitJoin(s[1..], sep);
      if s[0] == sep {
        assert Split(s, sep)[1..] == rest;
      } else if |rest| == 1 {
      } else {
        assert Split(s, sep)[1..] == rest[1..];
        assert JoinWith(rest, sep) == rest[0] + [sep] + JoinWith(rest[1..], sep);
      }
    }
  }

  /** Joining separator-free pieces and splitting again recovers them. */
  lemma {:induction false} JoinSplit(pieces: seq<string>, sep: char)
    requires |pieces| >= 1
    requires forall i :: 0 <= i < |pieces| ==> sep !in pieces[i]
    ensures Split(JoinWith(pieces, sep), sep) == pieces
    decreases |pieces|, |pieces[0]|
  {
    var p := pieces[0];
    if p == [] {
      if |pieces| > 1 {
        JoinSplit(pieces[1..], sep);
        assert JoinWith(pieces, sep) == [sep] + JoinWith(pieces[1..], sep);
        assert (JoinWith(pieces, sep))[1..] == JoinWith(pieces[1..], sep);
      }
    } else {
      var tail := [p[1..]] + pieces[1..];
      assert tail[1..] == pieces[1..];
      JoinSplit(tail, sep);
      assert p[1..] + [sep] == (p + [sep])[1..];
      assert JoinWith(pieces, sep) == [p[0]] + JoinWith(tail, sep) by {
        if |pieces| > 1 {
          assert p == [p[0]] + p[1..];
        } else {
          assert p == [p[0]] + p[1..];
        }
      }
      assert (JoinWith(pieces, sep))[1..] == JoinWith(tail, sep);
      assert p == [p[0]] + p[1..];
    }
  }

  /** Drops one trailing carriage return. */
  function StripCarriageReturn(line: string): string {
    if line != [] && line[|line| - 1] == '\r' then line[..|line| - 1] else line
  }

  /** `str::lines`: split at `\n`, drop the `\r` of each `\r\n` ending, and
      produce no empty final line when the text ends with a line ending. */
  function Lines(s: string): seq<string> {
    LinesOfPieces(Split(s, '\n'))
  }

  /** Every piece but the last was followed by `\n`; the last one was not. */
  function LinesOfPieces(pieces: seq<string>): seq<string>
    requires |pieces| >= 1
    decreases |pieces|
  {
    if |pieces| == 1 then
      (if pieces[0] == [] then [] else [pieces[0]])
    else
      [StripCarriageReturn(pieces[0])] + LinesOfPieces(pieces[1..])
  }

  /** Every line is drawn from the text. */
  lemma LinesPreserve(s: string, p: char -> bool)
    requires All(s, p)
    ensures forall i :: 0 <= i < |Lines(s)| ==> All(Lines(s)[i], p)
  {
    SplitPreserves(s, '\n', p);
    LinesOfPiecesPreserve(Split(s, '\n'), p);
  }

  lemma {:induction false} LinesOfPiecesPreserve(pieces: seq<string>, p: char -> bool)
    requires |pieces| >= 1
    requires forall i :: 0 <= i < |pieces| ==> All(pieces[i], p)
    ensures forall i :: 0 <= i < |LinesOfPieces(pieces)| ==> All(LinesOfPieces(pieces)[i], p)
    decreases |pieces|
  {
    if |pieces| > 1 {
      LinesOfPiecesPreserve(pieces[1..], p);
      var line := StripCarriageReturn(pieces[0]);
      assert forall j :: 0 <= j < |line| ==> line[j] == pieces[0][j];
    }
  }

  /** Joining lines with `\n` and reading them back with `lines` recovers
      them, as long as none holds a line feed or a `\r` it would take for a
      `\r\n` ending and the last is not empty. */
  lemma LinesOfJoin(lines: seq<string>)
    requires |lines| >= 1
    requires forall i :: 0 <= i < |lines| ==> '\n' !in lines[i]
    requires forall i :: 0 <= i < |lines| - 1 ==> lines[i] == [] || lines[i][|lines[i]| - 1] != '\r'
    requires lines[|lines| - 1] != []
    ensures Lines(JoinWith(lines, '\n')) == lines
  {
    JoinSplit(lines, '\n');
    LinesOfCleanPieces(lines);
  }

  /** A final line ending yields no empty last line: lines each written
      with a `\n` after it read back as themselves. */
  lemma LinesOfTerminated(lines: seq<string>)
    requires |lines| >= 1
    requires forall i :: 0 <= i < |lines| ==> '\n' !in lines[i]
    requires forall i :: 0 <= i < |lines| ==> lines[i] == [] || lines[i][|lines[i]| - 1] != '\r'
    ensures Lines(JoinWith(lines, '\n') + "\n") == lines
  {
    var pieces := lines + [[]];
    JoinWithSnoc(lines, [], '\n');
    assert JoinWith(lines, '\n') + "\n" == JoinWith(pieces, '\n');
    JoinSplit(pieces, '\n');
    LinesOfEndedPieces(lines);
  }

  /** The `\r` of every `\r\n` ending is dropped. */
  lemma CrlfLines()
    ensures Lines("a\r\nb\r\n") == ["a", "b"]
  {
    var pieces := ["a\r", "b\r", ""];
    assert JoinWith(pieces, '\n') == "a\r\nb\r\n";
    JoinSplit(pieces, '\n');
    assert pieces[1..][1..] == [""];
  }

  lemma {:induction false} JoinWithSnoc(pieces: seq<string>, last: string, sep: char)
    requires |pieces| >= 1
    ensures JoinWith(pieces + [last], sep) == JoinWith(pieces, sep) + [sep] + last
    decreases |pieces|
  {
    var all := pieces + [last];
    assert all[1..] == pieces[1..] + [last];
    if |pieces| > 1 {
      JoinWithSnoc(pieces[1..], last, sep);
    }
  }

  lemma {:induction false} LinesOfEndedPieces(lines: seq<string>)
    requires forall i :: 0 <= i < |lines| ==> lines[i] == [] || lines[i][|lines[i]| - 1] != '\r'
    ensures LinesOfPieces(lines + [[]]) == lines
    decreases |lines|
  {
    if lines != [] {
      assert (lines + [[]])[1..] == lines[1..] + [[]];
      LinesOfEndedPieces(lines[1..]);
    }
  }

  lemma {:induction false} LinesOfCleanPieces(pieces: seq<string>)
    requires |pieces| >= 1
    requires forall i :: 0 <= i < |pieces| - 1 ==> pieces[i] == [] || pieces[i][|pieces[i]| - 1] != '\r'
    requires pieces[|pieces| - 1] != []
    ensures LinesOfPieces(pieces) == pieces
    decreases |pieces|
  {
    if |pieces| > 1 {
      LinesOfCleanPieces(pieces[1..]);
    }
  }

  /** Length of the maximal run of non-whitespace at the front of `s`. */
  function WordEnd(s: string): (n: nat)
    ensures n <= |s|
    ensures forall i :: 0 <= i < n ==> !IsWhitespace(s[i])
    ensures n < |s| ==> IsWhitespace(s[n])
  {
    if s == [] || IsWhitespace(s[0]) then 0 else 1 + WordEnd(s[1..])
  }

  predicate IsWord(w: string) {
    w != [] && forall i :: 0 <= i < |w| ==> !IsWhitespace(w[i])
  }

  /** `split_whitespace`: the maximal runs of non-whitespace, in order. */
  function Words(s: string): (r: seq<string>)
    ensures forall i :: 0 <= i < |r| ==> IsWord(r[i])
    ensures r == [] <==> AllWhitespace(s)
    decreases |s|
  {
    if s == [] then []
    else if IsWhitespace(s[0]) then Words(s[1..])
    else
      var n := WordEnd(s);
      [s[..n]] + Words(s[n..])
  }

  /** Words separated by single spaces. */
  function JoinWords(ws: seq<string>): string
    decreases |ws|
  {
    if ws == [] then [] else if |ws| == 1 then ws[0] else ws[0] + " " + JoinWords(ws[1..])
  }

  /** Splitting joined words at whitespace gives the words back. */
  lemma {:induction false} WordsOfJoinWords(ws: seq<string>)
    requires forall i :: 0 <= i < |ws| ==> IsWord(ws[i])
    ensures Words(JoinWords(ws)) == ws
    decreases |ws|
  {
    if |ws| == 1 {
      WordsOfWord(ws[0]);
    } else if |ws| > 1 {
      WordsOfJoinWords(ws[1..]);
      WordsOfWord(ws[0]);
      WordsConcat(ws[0], JoinWords(ws[1..]));
    }
  }

  lemma WordsOfWord(w: string)
    requires IsWord(w)
    ensures Words(w) == [w]
  {
    WordEndExtend(w, []);
    assert w + [] == w;
    assert w[..|w|] == w;
    assert w[|w|..] == [];
  }

  /** The first word is unaffected by what follows, once a whitespace
      character or the end of `a` has closed it. */
  lemma {:induction false} WordEndExtend(a: string, x: string)
    requires WordEnd(a) < |a| || x == [] || IsWhitespace(x[0])
    ensures WordEnd(a + x) == WordEnd(a)
    decreases |a|
  {
    if a == [] {
      assert a + x == x;
    } else if IsWhitespace(a[0]) {
      assert (a + x)[0] == a[0];
    } else {
      assert (a + x)[1..] == a[1..] + x;
      WordEndExtend(a[1..], x);
    }
  }

  /** `split_whitespace` distributes over a single-space join. */
  lemma WordsConcat(a: string, b: string)
    ensures Words(a + " " + b) == Words(a) + Words(b)
  {
    var r := " " + b;
    assert a + " " + b == a + r;
    assert r[1..] == b;
    WordsBeforeWhitespace(a, r);
  }

  /** Text that starts with whitespace adds its own words after those of `a`. */
  lemma {:induction false} WordsBeforeWhitespace(a: string, r: string)
    requires r != [] && IsWhitespace(r[0])
    ensures Words(a + r) == Words(a) + Words(r)
    decreases |a|
  {
    if a == [] {
      assert a + r == r;
    } else if IsWhitespace(a[0]) {
      assert (a + r)[1..] == a[1..] + r;
      WordsBeforeWhitespace(a[1..], r);
    } else {
      var n := WordEnd(a);
      var s := a + r;
      WordEndExtend(a, r);
      assert s[0] == a[0];
      assert s[..n] == a[..n];
      assert s[n..] == a[n..] + r;
      WordsBeforeWhitespace(a[n..], r);
      assert Words(s) == [a[..n]] + (Words(a[n..]) + Words(r));
    }
  }

  // ---------------------------------------------------------------------
  // trim_matches with a character predicate
  // ---------------------------------------------------------------------

  /** `trim_start_matches(p)`: drops the leading characters satisfying `p`. */
  function TrimStartMatches(s: string, p: char -> bool): (r: string)
    ensures |r| <= |s| && r == s[|s| - |r|..]
    ensures r == [] || !p(r[0])
    ensures forall i :: 0 <= i < |s| - |r| ==> p(s[i])
    decreases |s|
  {
    if s != [] && p(s[0]) then
      var r := TrimStartMatches(s[1..], p);
      assert forall i :: 1 <= i < |s| - |r| ==> s[1..][i - 1] == s[i];
      r
    else s
  }

  /** `trim_end_matches(p)`: drops the trailing characters satisfying `p`. */
  function TrimEndMatches(s: string, p: char -> bool): (r: string)
    ensures |r| <= |s| && r == s[..|r|]
    ensures r == [] || !p(r[|r| - 1])
    ensures forall i :: |r| <= i < |s| ==> p(s[i])
    decreases |s|
  {
    if s != [] && p(s[|s| - 1]) then TrimEndMatches(s[..|s| - 1], p) else s
  }

  /** `trim_matches(p)`: both ends. */
  function TrimMatches(s: string, p: char -> bool): (r: string)
    ensures r == [] || (!p(r[0]) && !p(r[|r| - 1]))
    ensures r == [] <==> All(s, p)
  {
    var l := TrimStartMatches(s, p);
    var r := TrimEndMatches(l, p);
    assert r == [] ==> l == [];
    r
  }

  /** `trim_matches` keeps a contiguous stretch of its input. */
  lemma TrimMatchesPreserves(s: string, p: char -> bool, q: char -> bool)
    requires All(s, q)
    ensures All(TrimMatches(s, p), q)
  {
    var l := TrimStartMatches(s, p);
    AllSlice(s, q, |s| - |l|, |s|);
    AllSlice(l, q, 0, |TrimEndMatches(l, p)|);
  }

  /** The trimmed text is never longer than the input. */
  lemma TrimMatchesShorter(s: string, p: char -> bool)
    ensures |TrimMatches(s, p)| <= |s|
  {
  }

  /** A leading run of trimmed characters makes no difference. */
  lemma {:induction false} TrimStartMatchesPadded(pad: string, s: string, p: char -> bool)
    requires All(pad, p)
    ensures TrimStartMatches(pad + s, p) == TrimStartMatches(s, p)
    decreases |pad|
  {
    if pad == [] {
      assert pad + s == s;
    } else {
      assert (pad + s)[0] == pad[0];
      assert (pad + s)[1..] == pad[1..] + s;
      TrimStartMatchesPadded(pad[1..], s, p);
    }
  }

  /** Once a kept character is reached, what follows passes through. */
  lemma {:induction false} TrimStartMatchesAppend(s: string, x: string, p: char -> bool)
    requires !All(s, p)
    ensures TrimStartMatches(s + x, p) == TrimStartMatches(s, p) + x
    decreases |s|
  {
    assert s != [];
    assert (s + x)[0] == s[0];
    if p(s[0]) {
      assert (s + x)[1..] == s[1..] + x;
      assert !All(s[1..], p) by {
        var i :| 0 <= i < |s| && !p(s[i]);
        assert s[1..][i - 1] == s[i];
      }
      TrimStartMatchesAppend(s[1..], x, p);
    }
  }

  /** A trailing run of trimmed characters makes no difference. */
  lemma {:induction false} TrimEndMatchesPadded(s: string, pad: string, p: char -> bool)
    requires All(pad, p)
    ensures TrimEndMatches(s + pad, p) == TrimEndMatches(s, p)
    decreases |pad|
  {
    if pad == [] {
      assert s + pad == s;
    } else {
      var t := s + pad;
      assert t[|t| - 1] == pad[|pad| - 1];
      assert t[..|t| - 1] == s + pad[..|pad| - 1];
      TrimEndMatchesPadded(s, pad[..|pad| - 1], p);
    }
  }

  /** A string whose first and last characters fail `p` is left as it is. */
  lemma TrimMatchesKeeps(s: string, p: char -> bool)
    requires s == [] || (!p(s[0]) && !p(s[|s| - 1]))
    ensures TrimMatches(s, p) == s
  {
  }

  /** `trim_matches` ignores any padding of trimmed characters. */
  lemma TrimMatchesPadded(pre: string, s: string, post: string, p: char -> bool)
    requires All(pre, p) && All(post, p)
    ensures TrimMatches(pre + s + post, p) == TrimMatches(s, p)
  {
    assert pre + s + post == pre + (s + post);
    TrimStartMatchesPadded(pre, s + post, p);
    if All(s, p) {
      assert All(s + post, p);
    } else {
      TrimStartMatchesAppend(s, post, p);
      TrimEndMatchesPadded(TrimStartMatches(s, p), post, p);
    }
  }

  // ---------------------------------------------------------------------
  // Lower-casing
  // ---------------------------------------------------------------------

  lemma ToLowerIdempotent(s: string)
    ensures ToLower(ToLower(s)) == ToLower(s)
  {
  }

  lemma ToLowerConcat(a: string, b: string)
    ensures ToLower(a + b) == ToLower(a) + ToLower(b)
  {
    var r := ToLower(a) + ToLower(b);
    assert forall i :: 0 <= i < |a + b| ==> r[i] == Lower((a + b)[i]);
    ToLowerPointwise(a + b, r);
  }

  /** A string that lower-cases `s` character by character is `ToLower(s)`. */
  lemma ToLowerPointwise(s: string, r: string)
    requires |r| == |s| && forall i :: 0 <= i < |s| ==> r[i] == Lower(s[i])
    ensures r == ToLower(s)
  {
  }

  /** Lower-casing keeps every character that is not an ASCII letter and
      keeps letters letters. */
  lemma ToLowerLetters(s: string)
    ensures All(s, NotLetter) <==> All(ToLower(s), NotLetter)
  {
  }

  // ---------------------------------------------------------------------
  // UTF-8
  // ---------------------------------------------------------------------

  type Byte = b: nat | b < 0x100

  /** The UTF-8 encoding of one scalar value (Unicode section 3.9, table 3-6). */
  function EncodeChar(c: char): (r: seq<Byte>)
    ensures 1 <= |r| <= 4
    ensures c as int < 0x80 ==> r == [c as int]
    ensures c as int >= 0x80 ==> forall i :: 0 <= i < |r| ==> r[i] >= 0x80
  {
    var n := c as int;
    if n < 0x80 then [n]
    else if n < 0x800 then [0xC0 + n / 0x40, 0x80 + n % 0x40]
    else if n < 0x1_0000 then [0xE0 + n / 0x1000, 0x80 + n / 0x40 % 0x40, 0x80 + n % 0x40]
    else [0xF0 + n / 0x4_0000, 0x80 + n / 0x1000 % 0x40, 0x80 + n / 0x40 % 0x40, 0x80 + n % 0x40]
  }

  /** The UTF-8 encoding of a string, whose length is what `str::len` reports. */
  function Encode(s: string): (r: seq<Byte>)
    ensures |r| >= |s|
    decreases |s|
  {
    if s == [] then [] else Encode(s[..|s| - 1]) + EncodeChar(s[|s| - 1])
  }

  /** ASCII text encodes one byte per character, as itself. */
  lemma {:induction false} EncodeAscii(s: string)
    requires forall i :: 0 <= i < |s| ==> s[i] as int < 0x80
    ensures |Encode(s)| == |s|
    ensures forall i :: 0 <= i < |s| ==> Encode(s)[i] == s[i] as int
    decreases |s|
  {
    if s != [] {
      EncodeAscii(s[..|s| - 1]);
    }
  }

  lemma {:induction false} EncodeConcat(a: string, b: string)
    ensures Encode(a + b) == Encode(a) + Encode(b)
    decreases |b|
  {
    if b == [] {
      assert a + b == a;
    } else {
      var ab := a + b;
      var b' := b[..|b| - 1];
      var e := EncodeChar(b[|b| - 1]);
      assert ab[..|ab| - 1] == a + b';
      assert ab[|ab| - 1] == b[|b| - 1];
      assert Encode(ab) == Encode(a + b') + e;
      EncodeConcat(a, b');
      assert Encode(b) == Encode(b') + e;
      assert Encode(ab) == Encode(a) + (Encode(b') + e);
    }
  }


  /** Each piece followed by the terminator `end`. */
  function JoinTerminated(pieces: seq<string>, end: char): (r: string)
    ensures |r| >= |pieces|
    decreases |pieces|
  {
    if pieces == [] then [] else pieces[0] + [end] + JoinTerminated(pieces[1..], end)
  }

  /** With a whitespace terminator, the text is blank exactly when every piece is. */
  lemma {:induction false} JoinTerminatedBlank(pieces: seq<string>, end: char)
    requires IsWhitespace(end)
    ensures AllWhitespace(JoinTerminated(pieces, end)) <==> forall i :: 0 <= i < |pieces| ==> AllWhitespace(pieces[i])
    decreases |pieces|
  {
    if pieces != [] {
      JoinTerminatedBlank(pieces[1..], end);
      var head := pieces[0] + [end];
      var r := head + JoinTerminated(pieces[1..], end);
      assert forall i :: 0 <= i < |pieces[0]| ==> r[i] == pieces[0][i];
      assert forall i :: 0 <= i < |pieces| - 1 ==> pieces[1..][i] == pieces[i + 1];
      if AllWhitespace(r) {
        assert forall i :: 0 <= i < |JoinTerminated(pieces[1..], end)| ==> r[|head| + i] == JoinTerminated(pieces[1..], end)[i];
      }
    }
  }

}
