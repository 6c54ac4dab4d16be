/** The Flesch-Kincaid scorer of `readability.rs`: the sentence, word and
    syllable counters, the vowel-group syllable heuristic, and the verdict
    that `check` reaches once the printing and the exit code are set aside. */
module Readability {
  import opened Text
  import opened Seqs
  import opened Markdown

  // ---------------------------------------------------------------------
  // Sentences
  // ---------------------------------------------------------------------

  /** The characters `count_sentences` takes to end a sentence. */
  predicate IsTerminator(c: char) {
    c == '.' || c == '!' || c == '?' || c == ':'
  }

  /** How many sentence terminators `s` holds. */
  function Terminators(s: string): (n: nat)
    ensures n <= |s|
    ensures n == 0 <==> forall i :: 0 <= i < |s| ==> !IsTerminator(s[i])
    decreases |s|
  {
    if s == [] then 0 else (if IsTerminator(s[0]) then 1 else 0) + Terminators(s[1..])
  }

  /** The count agrees with the multiplicities of the four terminators. */
  lemma {:induction false} TerminatorsByMultiset(s: string)
    ensures Terminators(s) == multiset(s)['.'] + multiset(s)['!'] + multiset(s)['?'] + multiset(s)[':']
    decreases |s|
  {
    if s != [] {
      assert s == [s[0]] + s[1..];
      assert multiset(s) == multiset{s[0]} + multiset(s[1..]);
      TerminatorsByMultiset(s[1..]);
    }
  }

  lemma {:induction false} TerminatorsConcat(a: string, b: string)
    ensures Terminators(a + b) == Terminators(a) + Terminators(b)
    decreases |a|
  {
    if a == [] {
      assert a + b == b;
    } else {
      assert (a + b)[0] == a[0];
      assert (a + b)[1..] == a[1..] + b;
      TerminatorsConcat(a[1..], b);
    }
  }

  /** `count_sentences`: the number of terminators, but never less than one. */
  function CountSentences(text: string): (n: nat)
    ensures n >= 1
    ensures n >= Terminators(text)
    ensures n > 1 ==> n == Terminators(text)
    ensures Terminators(text) >= 1 ==> n == Terminators(text)
  {
    var t := Terminators(text);
    if t < 1 then 1 else t
  }

  // ---------------------------------------------------------------------
  // Words
  // ---------------------------------------------------------------------

  /** `count_words`: how many whitespace-separated tokens there are. */
  function CountWords(text: string): (n: nat)
    ensures n == 0 <==> AllWhitespace(text)
  {
    |Words(text)|
  }

  /** Joining words with single spaces and counting them again gives their number. */
  lemma CountWordsOfJoin(ws: seq<string>)
    requires forall i :: 0 <= i < |ws| ==> IsWord(ws[i])
    ensures CountWords(JoinWords(ws)) == |ws|
  {
    WordsOfJoinWords(ws);
  }

  lemma CountWordsConcat(a: string, b: string)
    ensures CountWords(a + " " + b) == CountWords(a) + CountWords(b)
  {
    WordsConcat(a, b);
  }

  // ---------------------------------------------------------------------
  // Syllables of one word
  // ---------------------------------------------------------------------

  /** The token after `to_lowercase` and trimming non-letters at both ends. */
  function CleanWord(word: string): (r: string)
    ensures r == [] <==> All(word, NotLetter)
    ensures r == [] || (IsLetter(r[0]) && IsLetter(r[|r| - 1]))
    ensures |r| <= |word|
  {
    var lower := ToLower(word);
    ToLowerLetters(word);
    TrimMatchesShorter(lower, NotLetter);
    TrimMatches(lower, NotLetter)
  }

  /** The six letters `count_word_syllables` treats as vowels. */
  predicate IsVowel(c: char) {
    c == 'a' || c == 'e' || c == 'i' || c == 'o' || c == 'u' || c == 'y'
  }

  /** Position `i` starts a maximal run of vowels. */
  predicate RunStart(s: string, i: nat)
    requires i < |s|
  {
    IsVowel(s[i]) && (i == 0 || !IsVowel(s[i - 1]))
  }

  /** The number of maximal runs of vowels in `s`. */
  function VowelGroups(s: string): (n: nat)
    ensures n <= |s|
    decreases |s|
  {
    if s == [] then 0
    else VowelGroups(s[..|s| - 1]) + (if RunStart(s, |s| - 1) then 1 else 0)
  }

  /** A run of vowels is one group. */
  lemma {:induction false} VowelGroupsOfRun(s: string)
    requires s != [] && All(s, IsVowel)
    ensures VowelGroups(s) == 1
    decreases |s|
  {
    if |s| > 1 {
      VowelGroupsOfRun(s[..|s| - 1]);
    }
  }

  /** Text with no vowel has no group. */
  lemma {:induction false} VowelGroupsNone(s: string)
    requires forall i :: 0 <= i < |s| ==> !IsVowel(s[i])
    ensures VowelGroups(s) == 0
    decreases |s|
  {
    if s != [] {
      VowelGroupsNone(s[..|s| - 1]);
    }
  }

  /** A non-vowel separates groups: the counts on either side add up.
      Together with the two lemmas above this pins `VowelGroups` down. */
  lemma {:induction false} VowelGroupsSplit(a: string, c: char, b: string)
    requires !IsVowel(c)
    ensures VowelGroups(a + [c] + b) == VowelGroups(a) + VowelGroups(b)
    decreases |b|
  {
    var s := a + [c] + b;
    if b == [] {
      assert s[..|s| - 1] == a;
    } else {
      var b' := b[..|b| - 1];
      assert s[..|s| - 1] == a + [c] + b';
      assert s[|s| - 1] == b[|b| - 1];
      assert s[|s| - 2] == if b' == [] then c else b'[|b'| - 1];
      VowelGroupsSplit(a, c, b');
    }
  }

  /** Syllables of a cleaned token: one for a token of at most three bytes;
      otherwise its vowel groups, one less for a final `e` when there are
      several, and at least one. */
  function CleanSyllables(w: string): (n: nat)
    ensures n == 0 <==> w == []
    ensures n <= |w|
    ensures w != [] && |Encode(w)| <= 3 ==> n == 1
  {
    if w == [] then 0
    else if |Encode(w)| <= 3 then 1
    else
      var groups := VowelGroups(w);
      var count := if w[|w| - 1] == 'e' && groups > 1 then groups - 1 else groups;
      if count < 1 then 1 else count
  }

  /** `count_word_syllables`: tokens without letters count zero. */
  function WordSyllables(word: string): (n: nat)
    ensures n == 0 <==> All(word, NotLetter)
    ensures n <= |word|
  {
    CleanSyllables(CleanWord(word))
  }

  /** Surrounding punctuation does not change the cleaned token. */
  lemma CleanWordPadded(pre: string, word: string, post: string)
    requires All(pre, NotLetter) && All(post, NotLetter)
    ensures CleanWord(pre + word + post) == CleanWord(word)
  {
    ToLowerConcat(pre + word, post);
    ToLowerConcat(pre, word);
    ToLowerLetters(pre);
    ToLowerLetters(post);
    TrimMatchesPadded(ToLower(pre), ToLower(word), ToLower(post), NotLetter);
  }

  /** A token that starts and ends with a letter cleans to its lower-cased
      self, whatever non-letters surround it. */
  lemma CleanWordCore(pre: string, core: string, post: string)
    requires All(pre, NotLetter) && All(post, NotLetter)
    requires core == [] || (IsLetter(core[0]) && IsLetter(core[|core| - 1]))
    ensures CleanWord(pre + core + post) == ToLower(core)
  {
    CleanWordPadded(pre, core, post);
    TrimMatchesKeeps(ToLower(core), NotLetter);
  }

  /** Only the cleaned token matters: surrounding punctuation does not. */
  lemma SyllablesIgnorePunctuation(pre: string, word: string, post: string)
    requires All(pre, NotLetter) && All(post, NotLetter)
    ensures WordSyllables(pre + word + post) == WordSyllables(word)
  {
    CleanWordPadded(pre, word, post);
  }

  /** Nor does case. */
  lemma SyllablesIgnoreCase(word: string)
    ensures WordSyllables(ToLower(word)) == WordSyllables(word)
  {
    ToLowerIdempotent(word);
    assert CleanWord(ToLower(word)) == CleanWord(word);
  }

  /** An all-ASCII token of at most three characters with a letter in it
      counts one syllable. */
  lemma ShortWordIsOneSyllable(word: string)
    requires |word| <= 3 && !All(word, NotLetter) && All(word, IsAscii)
    ensures WordSyllables(word) == 1
  {
    CleanWordAscii(word);
    ShortTokenIsOneSyllable(CleanWord(word));
  }

  /** A non-empty ASCII token of at most three characters counts one. */
  lemma ShortTokenIsOneSyllable(w: string)
    requires w != [] && |w| <= 3 && All(w, IsAscii)
    ensures CleanSyllables(w) == 1
  {
    EncodeAscii(w);
  }

  lemma CleanWordAscii(word: string)
    requires All(word, IsAscii)
    ensures All(CleanWord(word), IsAscii)
  {
    var l := ToLower(word);
    assert All(l, IsAscii);
    TrimMatchesPreserves(l, NotLetter, IsAscii);
  }

  predicate IsAscii(c: char) {
    c as int < 0x80
  }

  /** A cleaned token of more than three bytes scores its adjusted group count. */
  lemma LongWordSyllables(w: string)
    requires |Encode(w)| > 3
    ensures var g := VowelGroups(w);
            CleanSyllables(w) == if w[|w| - 1] == 'e' && g > 1 then g - 1 else if g == 0 then 1 else g
  {
  }

  /** A token made of lower-case letters is its own cleaned form. */
  lemma CleanLowerWord(word: string)
    requires forall i :: 0 <= i < |word| ==> 'a' <= word[i] <= 'z'
    ensures CleanWord(word) == word
  {
    assert ToLower(word) == word;
    if word != [] {
      assert !NotLetter(word[0]) && !NotLetter(word[|word| - 1]);
    }
  }

  /** A token of lower-case letters is scored as it stands. */
  lemma LowerWordSyllables(word: string)
    requires forall i :: 0 <= i < |word| ==> 'a' <= word[i] <= 'z'
    ensures WordSyllables(word) == CleanSyllables(word)
    ensures |Encode(word)| == |word|
  {
    CleanLowerWord(word);
    EncodeAscii(word);
  }

  lemma SyllablesOfThe()
    ensures WordSyllables("the") == 1
  {
    LowerWordSyllables("the");
  }

  lemma SyllablesOfA()
    ensures WordSyllables("a") == 1
  {
    LowerWordSyllables("a");
  }

  lemma SyllablesOfHello()
    ensures WordSyllables("hello") == 2
  {
    LowerWordSyllables("hello");
    GroupsOfHello();
  }

  lemma GroupsOfHello()
    ensures VowelGroups("hello") == 2
  {
    assert VowelGroups("h") == 0;
    assert "he"[..1] == "h";
    assert VowelGroups("he") == 1;
    assert "hel"[..2] == "he";
    assert VowelGroups("hel") == 1;
    assert "hell"[..3] == "hel";
    assert VowelGroups("hell") == 1;
    assert "hello"[..4] == "hell";
  }

  lemma SyllablesOfBeautiful()
    ensures WordSyllables("beautiful") == 3
  {
    LowerWordSyllables("beautiful");
    GroupsOfBeautiful();
  }

  lemma GroupsOfBeautiful()
    ensures VowelGroups("beautiful") == 3
  {
    assert VowelGroups("b") == 0;
    assert "be"[..1] == "b";
    assert VowelGroups("be") == 1;
    assert "bea"[..2] == "be";
    assert VowelGroups("bea") == 1;
    assert "beau"[..3] == "bea";
    assert VowelGroups("beau") == 1;
    assert "beaut"[..4] == "beau";
    assert VowelGroups("beaut") == 1;
    assert "beauti"[..5] == "beaut";
    assert VowelGroups("beauti") == 2;
    assert "beautif"[..6] == "beauti";
    assert VowelGroups("beautif") == 2;
    assert "beautifu"[..7] == "beautif";
    assert VowelGroups("beautifu") == 3;
    assert "beautiful"[..8] == "beautifu";
  }

  // ---------------------------------------------------------------------
  // The byte loop of count_word_syllables
  // ---------------------------------------------------------------------

  /** A byte that encodes one of the six vowels. */
  predicate IsVowelByte(b: Byte) {
    b == 'a' as int || b == 'e' as int || b == 'i' as int || b == 'o' as int || b == 'u' as int || b == 'y' as int
  }

  /** Vowel groups counted over bytes, the way the source's loop does. */
  function ByteGroups(bs: seq<Byte>): (n: nat)
    decreases |bs|
  {
    if bs == [] then 0
    else
      var k := |bs| - 1;
      ByteGroups(bs[..k]) + (if IsVowelByte(bs[k]) && (k == 0 || !IsVowelByte(bs[k - 1])) then 1 else 0)
  }

  /** Bytes that are not vowels add no group. */
  lemma {:induction false} ByteGroupsNonVowels(bs: seq<Byte>, tail: seq<Byte>)
    requires forall i :: 0 <= i < |tail| ==> !IsVowelByte(tail[i])
    ensures ByteGroups(bs + tail) == ByteGroups(bs)
    decreases |tail|
  {
    if tail == [] {
      assert bs + tail == bs;
    } else {
      var t := bs + tail;
      assert t[..|t| - 1] == bs + tail[..|tail| - 1];
      assert t[|t| - 1] == tail[|tail| - 1];
      ByteGroupsNonVowels(bs, tail[..|tail| - 1]);
    }
  }

  /** A byte of a character's encoding is a vowel byte only when the
      character is a vowel, and then it is the only byte. */
  lemma EncodeCharVowel(c: char)
    ensures IsVowel(c) ==> EncodeChar(c) == [c as int]
    ensures !IsVowel(c) ==> forall i :: 0 <= i < |EncodeChar(c)| ==> !IsVowelByte(EncodeChar(c)[i])
  {
  }

  /** The last byte of an encoding is a vowel byte exactly when the last
      character is a vowel. */
  lemma LastByteVowel(s: string)
    requires s != []
    ensures Encode(s) != []
    ensures IsVowelByte(Encode(s)[|Encode(s)| - 1]) <==> IsVowel(s[|s| - 1])
  {
    EncodeCharVowel(s[|s| - 1]);
  }

  /** Counting over the UTF-8 bytes gives the character-level count: the
      bytes of a non-ASCII character are never vowels. */
  lemma {:induction false} ByteGroupsOfEncode(s: string)
    ensures ByteGroups(Encode(s)) == VowelGroups(s)
    decreases |s|
  {
    if s != [] {
      var s' := s[..|s| - 1];
      var c := s[|s| - 1];
      assert s == s' + [c];
      ByteGroupsOfEncode(s');
      if IsVowel(c) {
        AppendVowel(s', c);
      } else {
        AppendNonVowel(s', c);
      }
    }
  }

  lemma AppendVowel(s: string, c: char)
    requires IsVowel(c) && ByteGroups(Encode(s)) == VowelGroups(s)
    ensures ByteGroups(Encode(s + [c])) == VowelGroups(s + [c])
  {
    var t := s + [c];
    assert t[..|t| - 1] == s;
    EncodeCharVowel(c);
    var pre := Encode(s);
    var bs := pre + [c as int];
    assert Encode(t) == bs;
    assert bs[..|bs| - 1] == pre;
    if s != [] {
      LastByteVowel(s);
      assert bs[|bs| - 2] == pre[|pre| - 1];
      assert t[|t| - 2] == s[|s| - 1];
    }
  }

  lemma AppendNonVowel(s: string, c: char)
    requires !IsVowel(c) && ByteGroups(Encode(s)) == VowelGroups(s)
    ensures ByteGroups(Encode(s + [c])) == VowelGroups(s + [c])
  {
    var t := s + [c];
    assert t[..|t| - 1] == s;
    EncodeCharVowel(c);
    assert Encode(t) == Encode(s) + EncodeChar(c);
    ByteGroupsNonVowels(Encode(s), EncodeChar(c));
  }

  /** The loop of `count_word_syllables`: one pass over the bytes, counting
      a group each time a vowel follows a non-vowel. */
  method CountByteGroups(bytes: seq<Byte>) returns (count: nat)
    ensures count == ByteGroups(bytes)
  {
    count := 0;
    var prevVowel := false;
    var i := 0;
    while i < |bytes|
      invariant 0 <= i <= |bytes|
      invariant count == ByteGroups(bytes[..i])
      invariant prevVowel <==> i > 0 && IsVowelByte(bytes[i - 1])
    {
      var isVowel := IsVowelByte(bytes[i]);
      assert bytes[..i + 1][..i] == bytes[..i];
      if isVowel && !prevVowel {
        count := count + 1;
      }
      prevVowel := isVowel;
      i := i + 1;
    }
    assert bytes[..i] == bytes;
  }

  /** `count_word_syllables` as written: lower-case, trim, the byte-length
      shortcut, the byte loop, the silent-`e` rule and the floor of one. */
  method CountWordSyllables(word: string) returns (count: nat)
    ensures count == WordSyllables(word)
  {
    count := CountCleanSyllables(CleanWord(word));
  }

  method CountCleanSyllables(w: string) returns (count: nat)
    ensures count == CleanSyllables(w)
  {
    if w == [] {
      return 0;
    }
    var bytes := Encode(w);
    if |bytes| <= 3 {
      return 1;
    }
    count := CountByteGroups(bytes);
    ByteGroupsOfEncode(w);
    if w[|w| - 1] == 'e' && count > 1 {
      count := count - 1;
    }
    if count < 1 {
      count := 1;
    }
  }

  // ---------------------------------------------------------------------
  // Syllables of a document
  // ---------------------------------------------------------------------

  function SumSyllables(ws: seq<string>): nat
    decreases |ws|
  {
    if ws == [] then 0 else WordSyllables(ws[0]) + SumSyllables(ws[1..])
  }

  lemma {:induction false} SumSyllablesConcat(a: seq<string>, b: seq<string>)
    ensures SumSyllables(a + b) == SumSyllables(a) + SumSyllables(b)
    decreases |a|
  {
    if a == [] {
      assert a + b == b;
    } else {
      assert (a + b)[1..] == a[1..] + b;
      SumSyllablesConcat(a[1..], b);
    }
  }

  /** `count_syllables`: the syllables of every token, added up. */
  function CountSyllables(text: string): (n: nat)
    ensures AllWhitespace(text) ==> n == 0
  {
    SumSyllables(Words(text))
  }

  lemma CountSyllablesConcat(a: string, b: string)
    ensures CountSyllables(a + " " + b) == CountSyllables(a) + CountSyllables(b)
  {
    WordsConcat(a, b);
    SumSyllablesConcat(Words(a), Words(b));
  }

  /** A token adds its own syllables to the words around it. */
  lemma CountSyllablesOfJoin(ws: seq<string>)
    requires forall i :: 0 <= i < |ws| ==> IsWord(ws[i])
    ensures CountSyllables(JoinWords(ws)) == SumSyllables(ws)
  {
    WordsOfJoinWords(ws);
  }

  // ---------------------------------------------------------------------
  // The verdict
  // ---------------------------------------------------------------------

  /** What `check` reports: nothing to score, a bare grade, or a judgment
      against the maximum grade given. */
  datatype Verdict =
    | Skip
    | Score(grade: real)
    | Pass(grade: real, max: real)
    | Fail(grade: real, max: real)

  /** The Flesch-Kincaid grade level over exact reals. */
  function Grade(words: nat, sentences: nat, syllables: nat): real
    requires words > 0 && sentences > 0
  {
    0.39 * (words as real / sentences as real) + 11.8 * (syllables as real / words as real) - 15.59
  }

  /** More syllables over the same words and sentences never lower the grade. */
  lemma GradeMonotone(words: nat, sentences: nat, y1: nat, y2: nat)
    requires words > 0 && sentences > 0 && y1 <= y2
    ensures Grade(words, sentences, y1) <= Grade(words, sentences, y2)
  {
    var w := words as real;
    assert y1 as real / w <= y2 as real / w;
  }

  /** The verdict of `check` on a document: `Skip` when the normalised text
      has no word, otherwise the grade, judged against `maxGrade` if given. */
  function Assess(content: string, maxGrade: Option<real>): (v: Verdict)
    ensures v.Skip? <==> AllWhitespace(StripMarkdown(content))
    ensures maxGrade.None? ==> v.Skip? || v.Score?
    ensures maxGrade.Some? ==> v.Skip? || v.Pass? || v.Fail?
    ensures (v.Pass? || v.Fail?) ==> maxGrade == Some(v.max)
    ensures v.Fail? <==> maxGrade.Some? && !v.Skip? && v.grade > maxGrade.value
  {
    var text := StripMarkdown(content);
    var sentences := CountSentences(text);
    var words := CountWords(text);
    var syllables := CountSyllables(text);
    if words == 0 || sentences == 0 then Skip
    else
      var grade := Grade(words, sentences, syllables);
      match maxGrade
      case Some(max) => if grade > max then Fail(grade, max) else Pass(grade, max)
      case None => Score(grade)
  }

  /** The grade reported is the formula over the three counts of the
      normalised text; the sentence count is never zero, so the only way
      to `Skip` is to have no word at all. */
  lemma AssessedGrade(content: string, maxGrade: Option<real>)
    ensures var text := StripMarkdown(content);
            var v := Assess(content, maxGrade);
            && (v.Skip? <==> CountWords(text) == 0)
            && (!v.Skip? ==> v.grade == Grade(CountWords(text), CountSentences(text), CountSyllables(text)))
  {
  }

  /** The normalised text is blank exactly when it is empty, so a document
      is skipped exactly when no line survives normalisation. */
  lemma SkipIffNothingSurvives(content: string, maxGrade: Option<real>)
    ensures Assess(content, maxGrade).Skip? <==> Segments(content) == []
  {
    var r := StripMarkdown(content);
    if r != [] {
      assert r[..|r| - 1][0] == r[0];
      assert !IsWhitespace(r[0]);
    }
    if Segments(content) != [] {
      assert r == Segments(content)[0] + " " + JoinSegments(Segments(content)[1..]);
    }
  }

  /** An empty or whitespace-only document is skipped, never scored. */
  lemma BlankDocumentSkipped(content: string, maxGrade: Option<real>)
    requires AllWhitespace(content)
    ensures Assess(content, maxGrade) == Skip
  {
    WhitespaceOnlyStripsToEmpty(content);
  }

  /** Lowering the maximum never turns a failure into a pass. */
  lemma StricterMaximumStillFails(content: string, m1: real, m2: real)
    requires m1 <= m2 && Assess(content, Some(m2)).Fail?
    ensures Assess(content, Some(m1)).Fail?
  {
    AssessedGrade(content, Some(m1));
    AssessedGrade(content, Some(m2));
  }

  /** A score at or below the maximum passes. */
  lemma ScoreWithinMaximumPasses(content: string, m: real)
    requires Assess(content, None).Score? && Assess(content, None).grade <= m
    ensures Assess(content, Some(m)) == Pass(Assess(content, None).grade, m)
  {
  }
}
