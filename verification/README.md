# bito-lint document checks in Dafny

This project models the two document checks of the `bito-lint` tool:

- **Readability.** `readability.rs` strips markdown from a document. It then counts sentences, words and syllables in what is left. From these it computes a Flesch-Kincaid grade and reports either a skip, a score, or a pass or fail against an optional maximum.
- **Completeness.** `completeness.rs` looks up the required sections of a template (`adr`, `handoff` or `design-doc`). For each section it finds the first `## ` or `### ` heading that names it and collects the body up to the next heading of the same or higher rank. It classifies each section as missing, empty (blank or a bare placeholder) or present, and the check passes only when nothing is missing or empty.

There are six modules:

- `Seqs` (`seqs.dfy`) holds generic sequence tools: map, filter, collecting optional values, the first index where a test holds, and the two loops of the completeness checker (map until a stop, sort into two lists).
- `Text` (`text.dfy`) models the Rust string operations the checks rely on. These are `trim`, `trim_start`, `trim_matches`, `to_lowercase`, `split`, `lines`, `split_whitespace`, `contains` and UTF-8 byte length.
- `Markdown` (`markdown.dfy`) models `strip_markdown` and its helpers.
- `Readability` (`readability.dfy`) models the counters, the syllable estimate and the verdict of `check`.
- `Completeness` (`completeness.dfy`) models the template table, `find_section_content` and `check`.
- `CompletenessFacts` (`completeness_facts.dfy`) works through whole documents of the shape the unit tests use.

Modelling choices:

- **Whitespace.** `trim` and `split_whitespace` use the full Unicode `White_Space` set. It is written out in `Text.IsWhitespace`.
- **`strip_markdown`.** The per-line loop has two parts. A scan state (`lineNum`, `inFrontmatter`, `inCodeBlock`) decides which lines are skipped. A cleaning pipeline (blockquote marker, inline code, links, emphasis, trim) handles the lines that survive.
- **Syllable loop.** The source counts vowel groups over the bytes of the word. The model proves this equals the count over characters (`Readability.ByteGroupsOfEncode`), since no byte of a multi-byte UTF-8 character is an ASCII vowel.
- **Byte length.** `word.len()` is the UTF-8 length `|Encode(word)|`.
- **Numbers.** The grade is computed over exact reals.

## Model

| member | source | states |
|---|---|---|
| Text.Trim | crates/bito-lint/src/completeness.rs:91 | `trim` leaves a string that neither starts nor ends with Unicode whitespace, and leaves nothing exactly when the input is all whitespace |
| Text.TrimStart | crates/bito-lint/src/readability.rs:73 | `trim_start` returns a suffix of its input that does not start with whitespace, and everything it dropped is whitespace |
| Text.TrimStartPadded | crates/bito-lint/src/readability.rs:93 | `trim_start` of whitespace followed by text that starts with a non-whitespace character is that text |
| Text.TrimEnd | crates/bito-lint/src/completeness.rs:103 | `trim_end` returns a prefix that does not end with whitespace, and everything it dropped is whitespace |
| Text.TrimPreserves | crates/bito-lint/src/readability.rs:107-108 | every character of a trimmed string comes from the original, so any property of all characters survives trimming |
| Text.TrimTrimmed | crates/bito-lint/src/completeness.rs:103 | trimming is idempotent |
| Text.TrimPadded | crates/bito-lint/src/completeness.rs:103 | trimming a trimmed text padded with whitespace on both sides gives back that text |
| Text.TrimAsMatches | crates/bito-lint/src/readability.rs:188 | `trim` is `trim_matches` with the whitespace test |
| Text.TrimMatches | crates/bito-lint/src/readability.rs:188 | `trim_matches(p)` leaves a string that starts and ends with characters failing `p`, and leaves nothing exactly when every character satisfies `p` |
| Text.TrimMatchesPadded | crates/bito-lint/src/readability.rs:188 | padding of characters satisfying `p` on either side of a string makes no difference to `trim_matches` |
| Text.TrimMatchesKeeps | crates/bito-lint/src/readability.rs:188 | a string whose first and last characters fail `p` comes back unchanged, so with `TrimMatchesPadded` only the padding is removed |
| Text.ToLower | crates/bito-lint/src/completeness.rs:71 | lower-casing keeps the length and lower-cases each character on its own |
| Text.ToLowerIdempotent | crates/bito-lint/src/readability.rs:187 | lower-casing twice is lower-casing once |
| Text.ToLowerConcat | crates/bito-lint/src/completeness.rs:76 | lower-casing distributes over concatenation |
| Text.ToLowerLetters | crates/bito-lint/src/readability.rs:187-188 | a string has a letter exactly when its lower-cased form has one |
| Text.ContainsIffOccurs | crates/bito-lint/src/completeness.rs:79 | `contains` holds exactly when the pattern occurs at some position |
| Text.ContainsInside | crates/bito-lint/src/completeness.rs:79 | a string made of a prefix, the pattern and a suffix contains the pattern |
| Text.ContainsChar | crates/bito-lint/src/completeness.rs:79 | a string lacking one of the pattern's characters cannot contain the pattern |
| Text.Split | crates/bito-lint/src/readability.rs:55 | `split` yields at least one piece and no piece holds the separator |
| Text.SplitJoin | crates/bito-lint/src/readability.rs:55 | joining the pieces of a split with the separator gives back the text |
| Text.JoinSplit | crates/bito-lint/src/readability.rs:55 | splitting separator-free pieces joined with the separator gives back the pieces |
| Text.LinesOfJoin | crates/bito-lint/src/completeness.rs:72 | `lines` of lines joined with `\n` gives back the lines, when none holds `\n`, none but the last ends in `\r`, and the last is not empty |
| Text.LinesOfTerminated | crates/bito-lint/src/completeness.rs:72 | a text whose every line ends in `\n`, the last included, reads back as exactly those lines: no empty final line |
| Text.CrlfLines | crates/bito-lint/src/completeness.rs:72 | the `\r` of each `\r\n` ending is dropped: `"a\r\nb\r\n"` reads as `a`, `b` |
| Text.LinesPreserve | crates/bito-lint/src/readability.rs:55 | every line is drawn from the text's characters |
| Text.Words | crates/bito-lint/src/readability.rs:176 | `split_whitespace` yields non-empty words free of whitespace, and none exactly when the text is all whitespace |
| Text.WordsOfJoinWords | crates/bito-lint/src/readability.rs:176 | splitting words joined by single spaces gives back the words |
| Text.WordsConcat | crates/bito-lint/src/readability.rs:176 | the words of two texts joined by a space are the words of the first followed by those of the second |
| Text.EncodeChar | crates/bito-lint/src/readability.rs:199 | a character's UTF-8 encoding is 1 to 4 bytes: the character itself if ASCII, otherwise all bytes at or above 0x80 |
| Text.Encode | crates/bito-lint/src/readability.rs:194 | a string's UTF-8 encoding is at least as long as the string |
| Text.EncodeAscii | crates/bito-lint/src/readability.rs:194 | an ASCII string's byte length is its character count, and its bytes are its characters |
| Text.EncodeConcat | crates/bito-lint/src/readability.rs:199 | the encoding of a concatenation is the concatenation of the encodings |
| Text.JoinTerminatedBlank | crates/bito-lint/src/completeness.rs:99-103 | text built by ending each piece with a whitespace character is blank exactly when every piece is blank |
| Seqs.FirstWhere | crates/bito-lint/src/completeness.rs:75-80 | `position`: nothing before the returned index satisfies the test, and the index is the length or holds a match |
| Seqs.FirstWhereUnique | crates/bito-lint/src/completeness.rs:75-80 | any index with no match before it and a match at it (or the end) is what `position` returns |
| Seqs.MapUntil | crates/bito-lint/src/completeness.rs:90-101 | the loop that maps each element and stops before the first image the stop test accepts returns the images of exactly the elements before that point |
| Seqs.SortOut | crates/bito-lint/src/completeness.rs:36-42 | one pass that pushes each element onto one of two lists by its classification returns, for each class, exactly the elements of that class in order |
| Seqs.FilterMembers | crates/bito-lint/src/completeness.rs:36-42 | an element is in a filtered list exactly when it is in the input and passes the test |
| Seqs.FilterOrdered | crates/bito-lint/src/completeness.rs:36-42 | a filtered list keeps the input order |
| Seqs.FilterPartition | crates/bito-lint/src/completeness.rs:36-42 | when every element passes exactly one of three tests, the three filtered lists together have the input's length |
| Seqs.FilterEmpty | crates/bito-lint/src/completeness.rs:44 | a filtered list is empty exactly when no element passes the test |
| Markdown.RemovePattern | crates/bito-lint/src/readability.rs:116-131 | `remove_pattern` never makes the text longer, removes every opening delimiter, and changes nothing when there is none |
| Markdown.RemovePatternKeepsOutside | crates/bito-lint/src/readability.rs:116-131 | with equal delimiters, `remove_pattern` keeps exactly the 1st, 3rd, 5th, … of the pieces between delimiters |
| Markdown.RemovePatternPreserves | crates/bito-lint/src/readability.rs:116-131 | every character kept comes from the input |
| Markdown.RemoveLinks | crates/bito-lint/src/readability.rs:133-166 | `remove_markdown_links` never makes the text longer and changes nothing when there is no `[` |
| Markdown.InlineLinkBecomesLabel | crates/bito-lint/src/readability.rs:139-159 | `[text](url)` after bracket-free text becomes `text`, and the rest is processed on its own |
| Markdown.LinkAtStart | crates/bito-lint/src/readability.rs:139-159 | a text starting with `[text](url)` loses the brackets and the URL |
| Markdown.LabelAtStart | crates/bito-lint/src/readability.rs:139-148 | a closed `[text]` is replaced by `text`, and what follows is handled by the after-label step |
| Markdown.UrlDropped | crates/bito-lint/src/readability.rs:149-155 | a `(url)` right after a closed label is dropped up to and including the first `)` |
| Markdown.BracketBecomesLabel | crates/bito-lint/src/readability.rs:149-159 | a closed `[text]` not followed by `(` also loses its brackets |
| Markdown.UnclosedBracketKept | crates/bito-lint/src/readability.rs:156-159 | an unclosed `[` is kept, followed by the rest of the text |
| Markdown.RemoveLinksPreserves | crates/bito-lint/src/readability.rs:133-166 | every character kept comes from the input |
| Markdown.RemoveEmphasis | crates/bito-lint/src/readability.rs:104-105 | no `*` or `_` survives the four replacements |
| Markdown.RemoveEmphasisKeeps | crates/bito-lint/src/readability.rs:104-105 | the four replacements keep exactly the characters other than `*` and `_`, in their order (the `Seqs.Filter` that drops the markers) |
| Markdown.EmphasisAroundWordDropped | crates/bito-lint/src/readability.rs:104-105 | a marker-free word wrapped in any markers comes out as the word itself |
| Markdown.RemoveEmphasisIsDropMarkers | crates/bito-lint/src/readability.rs:104-105 | deleting `**` and `__` first changes nothing: the result is the text with every `*` and `_` deleted |
| Markdown.DropMarkers | crates/bito-lint/src/readability.rs:105 | deleting `*` and `_` leaves none, and changes nothing when there is none |
| Markdown.DropMarkersIsFilter | crates/bito-lint/src/readability.rs:105 | deleting the markers equals filtering the text for non-markers: every other character is kept, in order |
| Markdown.DropMarkersConcat | crates/bito-lint/src/readability.rs:105 | deleting the markers of a concatenation concatenates the results |
| Markdown.RemoveEmphasisPreserves | crates/bito-lint/src/readability.rs:104-105 | every character kept comes from the input |
| Markdown.Kind | crates/bito-lint/src/readability.rs:59-89 | a line is a rule exactly when it trims to `---`, a fence exactly when it starts with three backticks after leading whitespace, and a heading or table row exactly when it starts with `#` or `\|` after leading whitespace |
| Markdown.ScanLine | crates/bito-lint/src/readability.rs:55-89 | a line reaches the cleaning stage exactly when no frontmatter or code block is open, it is not a fence, heading or table row, and it is not a first-line `---` |
| Markdown.CleanLine | crates/bito-lint/src/readability.rs:92-105 | a cleaned line holds no backtick, `*` or `_`; its blockquote step is stated by `Markdown.QuoteMarkerDropped` and `Markdown.UnquotedLineKept` |
| Markdown.CleanLinePreserves | crates/bito-lint/src/readability.rs:92-105 | every character of a cleaned line comes from the raw line |
| Markdown.QuoteMarkerDropped | crates/bito-lint/src/readability.rs:91-95 | a line of whitespace, `>` and a rest becomes the rest with its leading whitespace trimmed: one marker goes, and a second `>` in the rest stays |
| Markdown.UnquotedLineKept | crates/bito-lint/src/readability.rs:91-95 | a line whose first non-blank character is not `>` is kept exactly, leading whitespace included |
| Markdown.QuotedLine | crates/bito-lint/src/readability.rs:91-95 | `> hi` becomes `hi` |
| Markdown.NestedQuoteOneLevel | crates/bito-lint/src/readability.rs:91-95 | `>> hi` becomes `> hi`: a nested quote loses only its outer marker |
| Markdown.Finish | crates/bito-lint/src/readability.rs:107-110 | a line contributes exactly when its cleaned form is not blank, and what it contributes is non-empty, trimmed and free of markup |
| Markdown.Segments | crates/bito-lint/src/readability.rs:55-111 | every contribution of the document is non-empty, trimmed and free of markup |
| Markdown.StripMarkdown | crates/bito-lint/src/readability.rs:49-114 | the output holds no backtick, `*` or `_`, and is either empty or trimmed text followed by exactly one space |
| Markdown.JoinedProse | crates/bito-lint/src/readability.rs:107-110 | pushing trimmed, markup-free segments each followed by a space gives trimmed text plus one trailing space |
| Markdown.FrontmatterDropped | crates/bito-lint/src/readability.rs:58-70 | a first-line `---` and every line up to and including the next `---` are skipped, and scanning resumes with nothing open |
| Markdown.FrontmatterIgnored | crates/bito-lint/src/readability.rs:58-70 | with a frontmatter block at the top, the kept lines are those kept from the rest of the document, scanned from the line after the closing `---` |
| Markdown.UnclosedFrontmatterDropsAll | crates/bito-lint/src/readability.rs:58-70 | a first-line `---` with no closing `---` hides the whole document |
| Markdown.CodeBlockDropped | crates/bito-lint/src/readability.rs:72-79 | a fence, the lines inside it and the closing fence are all skipped, and scanning resumes outside any block |
| Markdown.HeadingOrRowDropped | crates/bito-lint/src/readability.rs:81-89 | outside frontmatter and code, a heading or table row is skipped and changes no state |
| Markdown.SelectAfterDropped | crates/bito-lint/src/readability.rs:55-89 | lines skipped at the front take no part in what follows |
| Markdown.PlainLineFinished | crates/bito-lint/src/readability.rs:92-110 | a line with no markup character and no heading, table or quote marker contributes its trimmed self, or nothing when blank |
| Markdown.PlainProseUnchanged | crates/bito-lint/src/readability.rs:49-114 | on plain prose whose first line is not `---`, normalisation keeps every non-blank line, trimmed, in order |
| Markdown.WhitespaceOnlyStripsToEmpty | crates/bito-lint/src/readability.rs:107-113 | a blank document normalises to the empty string |
| Readability.Terminators | crates/bito-lint/src/readability.rs:169-171 | the count of `.`, `!`, `?` and `:` is at most the length, and zero exactly when there is none |
| Readability.TerminatorsByMultiset | crates/bito-lint/src/readability.rs:169-171 | the count equals the number of occurrences of the four characters |
| Readability.TerminatorsConcat | crates/bito-lint/src/readability.rs:169-171 | the count is additive over concatenation |
| Readability.CountSentences | crates/bito-lint/src/readability.rs:168-173 | `count_sentences` is at least one, and it is the terminator count whenever there is a terminator |
| Readability.CountWords | crates/bito-lint/src/readability.rs:175-177 | `count_words` is zero exactly when the text is all whitespace |
| Readability.CountWordsOfJoin | crates/bito-lint/src/readability.rs:175-177 | words joined by spaces count as their number |
| Readability.CountWordsConcat | crates/bito-lint/src/readability.rs:175-177 | word counts add over texts joined by a space |
| Readability.CleanWord | crates/bito-lint/src/readability.rs:187-188 | the cleaned token is empty exactly when the word has no letter, otherwise starts and ends with a letter, and is never longer than the word |
| Readability.CleanWordPadded | crates/bito-lint/src/readability.rs:188 | non-letters around a word do not change its cleaned form |
| Readability.CleanWordCore | crates/bito-lint/src/readability.rs:187-188 | a token that starts and ends with a letter, surrounded by any non-letters, cleans to exactly its lower-cased self |
| Readability.VowelGroupsOfRun | crates/bito-lint/src/readability.rs:203-209 | a non-empty run of vowels is one group |
| Readability.VowelGroupsNone | crates/bito-lint/src/readability.rs:203-209 | a string without vowels has no group |
| Readability.VowelGroupsSplit | crates/bito-lint/src/readability.rs:203-209 | a non-vowel separates groups, so the counts on either side add up |
| Readability.CleanSyllables | crates/bito-lint/src/readability.rs:190-216 | an empty cleaned token scores zero, any other at least one and at most its length, and a non-empty one of at most three bytes exactly one |
| Readability.LongWordSyllables | crates/bito-lint/src/readability.rs:194-216 | the long-token rule spelled out: more than three bytes scores the vowel groups, one less for a final `e` when there are two or more, and one when there is none. It follows from the definition; what the groups are is proved by `VowelGroupsOfRun`, `VowelGroupsNone` and `VowelGroupsSplit`, and that the byte loop counts them by `CountByteGroups` and `ByteGroupsOfEncode` |
| Readability.WordSyllables | crates/bito-lint/src/readability.rs:186-217 | a word scores zero exactly when it has no letter, and never more than its length |
| Readability.SyllablesIgnorePunctuation | crates/bito-lint/src/readability.rs:188 | punctuation around a word does not change its score |
| Readability.SyllablesIgnoreCase | crates/bito-lint/src/readability.rs:187 | upper- and lower-case spellings score the same |
| Readability.ShortWordIsOneSyllable | crates/bito-lint/src/readability.rs:194-196 | an ASCII word of at most three characters with a letter scores one |
| Readability.LowerWordSyllables | crates/bito-lint/src/readability.rs:187-194 | a word of lower-case ASCII letters is its own cleaned token, and its byte length is its length |
| Readability.SyllablesOfThe | crates/bito-lint/src/readability.rs:225 | "the" scores one |
| Readability.SyllablesOfHello | crates/bito-lint/src/readability.rs:226 | "hello" scores two |
| Readability.SyllablesOfBeautiful | crates/bito-lint/src/readability.rs:227 | "beautiful" scores three |
| Readability.SyllablesOfA | crates/bito-lint/src/readability.rs:228 | "a" scores one |
| Readability.ByteGroupsOfEncode | crates/bito-lint/src/readability.rs:198-209 | counting vowel groups over the UTF-8 bytes gives the count over the characters |
| Readability.EncodeCharVowel | crates/bito-lint/src/readability.rs:204 | a vowel encodes as its own byte, and no byte of any other character is a vowel byte |
| Readability.CountByteGroups | crates/bito-lint/src/readability.rs:198-209 | the byte loop with its `prev_vowel` flag counts the vowel groups of the bytes |
| Readability.CountCleanSyllables | crates/bito-lint/src/readability.rs:190-216 | the steps after cleaning compute the cleaned token's score |
| Readability.CountWordSyllables | crates/bito-lint/src/readability.rs:186-217 | `count_word_syllables` as written computes the word's score |
| Readability.SumSyllablesConcat | crates/bito-lint/src/readability.rs:180 | the syllable sum is additive over lists of words |
| Readability.CountSyllables | crates/bito-lint/src/readability.rs:179-181 | a blank text has no syllables |
| Readability.CountSyllablesConcat | crates/bito-lint/src/readability.rs:179-181 | syllable counts add over texts joined by a space |
| Readability.CountSyllablesOfJoin | crates/bito-lint/src/readability.rs:179-181 | the syllables of words joined by spaces are the sum of their scores |
| Readability.GradeMonotone | crates/bito-lint/src/readability.rs:24-26 | with words and sentences fixed, more syllables never lower the grade |
| Readability.Assess | crates/bito-lint/src/readability.rs:11-45 | skip exactly when nothing but whitespace survives normalisation; with no maximum a bare score, with one a pass or fail that carries it; fail exactly when a maximum is given and the grade exceeds it |
| Readability.AssessedGrade | crates/bito-lint/src/readability.rs:15-26 | skip exactly when the normalised text has no word; otherwise the grade is the formula on its word, sentence and syllable counts |
| Readability.SkipIffNothingSurvives | crates/bito-lint/src/readability.rs:19-22 | a document is skipped exactly when no line contributes to the normalised text |
| Readability.BlankDocumentSkipped | crates/bito-lint/src/readability.rs:19-22 | a blank document is skipped whatever the maximum |
| Readability.StricterMaximumStillFails | crates/bito-lint/src/readability.rs:28-35 | a document failing a maximum fails every lower one |
| Readability.ScoreWithinMaximumPasses | crates/bito-lint/src/readability.rs:28-41 | a document whose score is within a maximum passes it, with that score and maximum |
| Completeness.TemplateSections | crates/bito-lint/src/completeness.rs:9-31 | exactly the three template names are known, each with its fixed section list in order |
| Completeness.FindHeading | crates/bito-lint/src/completeness.rs:75-84 | no index exactly when no line is a heading for the section; otherwise the index of a heading with no heading before it |
| Completeness.HeadingLevel | crates/bito-lint/src/completeness.rs:78-87 | a matched heading starts with two or three `#` |
| Completeness.HeadingMatchesPrefix | crates/bito-lint/src/completeness.rs:75-80 | `## ` followed by a title that starts with the section name matches the section, whatever follows the name |
| Completeness.LeadingHashes | crates/bito-lint/src/completeness.rs:87 | the count of leading `#` is a prefix of `#` characters followed by something else or the end |
| Completeness.BodyEnd | crates/bito-lint/src/completeness.rs:90-98 | the body stops at the first line that trims to `#`-text with no more `#` than the level, or at the end |
| Completeness.DeeperHeadingKept | crates/bito-lint/src/completeness.rs:93-97 | a heading deeper than the section's level stays in the body |
| Completeness.Body | crates/bito-lint/src/completeness.rs:90-101 | the body has one trimmed line per line before the stop |
| Completeness.CollectBody | crates/bito-lint/src/completeness.rs:90-101 | the body loop as written collects exactly the trimmed lines before the stop |
| Completeness.SectionTextEmpty | crates/bito-lint/src/completeness.rs:99-108 | the section text is empty exactly when every line of the body is blank |
| Completeness.Classify | crates/bito-lint/src/completeness.rs:106-120 | never missing; empty exactly when the text is empty or, lower-cased and trimmed, equals a placeholder; present otherwise |
| Completeness.FindSectionWith | crates/bito-lint/src/completeness.rs:70-121 | missing exactly when no line is a heading for the lower-cased name |
| Completeness.FindSectionAsWritten | crates/bito-lint/src/completeness.rs:70-121 | with the placeholder list as written, missing exactly when no line is a heading for the section |
| Completeness.FindSection | crates/bito-lint/src/completeness.rs:70-121 | with the em-dash placeholder, missing exactly when no line is a heading for the section |
| Completeness.FoundSection | crates/bito-lint/src/completeness.rs:82-120 | when the first heading is at a given line, the verdict depends only on the body below it, at the heading's level, which is two or three |
| Completeness.WithState | crates/bito-lint/src/completeness.rs:33-42 | a list of sections with a given state is never longer than the template |
| Completeness.WithStateMembers | crates/bito-lint/src/completeness.rs:36-42 | for any placeholder list, a section is listed under a state exactly when the template requires it and it has that state |
| Completeness.WithStateOrdered | crates/bito-lint/src/completeness.rs:36-42 | each list keeps template order |
| Completeness.WithStatePartition | crates/bito-lint/src/completeness.rs:36-42 | the missing, empty and present lists together account for every required section once |
| Completeness.CheckSections | crates/bito-lint/src/completeness.rs:33-42 | the loop of `check` produces exactly the missing and the empty sections in template order |
| Completeness.CheckWith | crates/bito-lint/src/completeness.rs:8-61 | for a given placeholder list: an unknown template is rejected exactly when the name is not one of the three; otherwise the missing and empty lists together are no longer than the template |
| Completeness.Check | crates/bito-lint/src/completeness.rs:8-61 | `check` with the placeholder list exactly as written: rejected exactly for an unknown template; otherwise the missing and empty lists together are no longer than the template |
| Completeness.CheckIntended | crates/bito-lint/src/completeness.rs:8-61 | the same check with the em-dash placeholder, with the same guarantees |
| Completeness.UnknownTemplateRejected | crates/bito-lint/src/completeness.rs:30 | any other template name is rejected whatever the document and the placeholder list |
| Completeness.NoIssuesIffAllPresent | crates/bito-lint/src/completeness.rs:44 | nothing is missing or empty exactly when every required section is present |
| Completeness.PassedIffAllPresent | crates/bito-lint/src/completeness.rs:44-60 | for either placeholder list, the check passes exactly when the template is known and every required section is present in the document |
| CompletenessFacts.HeadingFoundAt | crates/bito-lint/src/completeness.rs:75-80 | a heading line after lines that are not headings for the section is the one found |
| CompletenessFacts.BodyOf | crates/bito-lint/src/completeness.rs:90-101 | lines that do not end the section, followed by the end or a line that does, are exactly the body |
| CompletenessFacts.FindSectionAt | crates/bito-lint/src/completeness.rs:82-120 | the verdict on a document is the verdict on the body under its first matching heading, at that heading's level |
| CompletenessFacts.SectionWithBody | crates/bito-lint/src/completeness.rs:70-121 | for `## name` followed by body lines and then the end or a closing heading, the verdict is the classification of those lines |
| CompletenessFacts.PlaceholderSectionEmpty | crates/bito-lint/src/completeness.rs:176-195 | a section holding only `TBD` between blank lines is empty |
| CompletenessFacts.DashSectionPresentAsWritten | crates/bito-lint/src/completeness.rs:110 | with the placeholder list as written, a section holding only an em-dash is present |
| CompletenessFacts.DashSectionEmpty | crates/bito-lint/src/completeness.rs:110 | with the em-dash placeholder, the same section is empty |
| CompletenessFacts.OtherHeading | crates/bito-lint/src/completeness.rs:75-80 | a `## ` heading that lacks, in either case, a letter of the section name is not a heading for that section |
| CompletenessFacts.SubstantiveIffPresent | crates/bito-lint/src/completeness.rs:99-120 | a body that stays inside its section is present exactly when it has a non-blank line and its text is not a placeholder |
| CompletenessFacts.FourSectionStates | crates/bito-lint/src/completeness.rs:70-121 | four `## ` sections in order, under names no earlier heading matches: each section's state is the classification of the lines under its own heading |
| CompletenessFacts.HandoffSectionStates | crates/bito-lint/src/completeness.rs:70-121 | the same for the four handoff sections, after any preamble without a heading for them |
| CompletenessFacts.FourPresent | crates/bito-lint/src/completeness.rs:36-44 | four present sections leave both lists empty |
| CompletenessFacts.CompleteHandoffPasses | crates/bito-lint/src/completeness.rs:128-154 | a handoff with the four sections in order, each holding a non-blank body that is not a placeholder, passes the check, a `# Handoff` title and metadata lines before them included |
| CompletenessFacts.LastEmpty | crates/bito-lint/src/completeness.rs:36-42 | when only the last of four sections is empty, nothing is missing and the empty list holds that section alone |
| CompletenessFacts.LastEmptyReport | crates/bito-lint/src/completeness.rs:33-60 | the check then reports no missing section and the last section as empty |
| CompletenessFacts.LandminesEmpty | crates/bito-lint/src/completeness.rs:33-60 | a handoff whose first three sections are substantive and whose `Landmines` is empty reports exactly `Landmines` as empty |
| CompletenessFacts.DashHandoffDisagrees | crates/bito-lint/src/completeness.rs:110 | on a complete handoff whose `Landmines` holds only an em-dash, the check as written passes while the intended check reports `Landmines` empty |

## Left out

- The command-line front end (`main.rs`) is not part of this model. Neither is the token counter (`tokens.rs`) or the `token-compare` tool. They do argument parsing, file reading and tokenisation by an outside library.
- Printing and the process exit code of both `check` functions are left out. The model returns the verdict (`Readability.Verdict`, `Completeness.Outcome`) instead, and leaves out the formatting of numbers in messages.
- Floating point: the grade is computed over exact reals. The model does not cover `mul_add` rounding, nor the conversion of counts to `f64`.
- `to_lowercase` and `is_alphabetic` are modelled for ASCII only. Non-ASCII characters count as non-letters and are not case-mapped.
- The `sentences == 0` test at `readability.rs:19` can never fire, because `count_sentences` is at least one (`Readability.CountSentences`). The model keeps the test and proves that skipping depends on the word count alone.
- A token with no letter scores zero syllables (`readability.rs:190-192`), not one. A description of the heuristic as "at least one syllable per word" would disagree with the code; the model follows the code (`Readability.WordSyllables`).
- `Text.Lines` follows `str::lines`. It drops a `\r` only when it comes just before a `\n`, so a trailing bare `\r` on the last line is kept.
- The full unit-test documents of `completeness.rs` are covered through `CompletenessFacts` lemmas over any document of that shape, not through their exact strings. `test_missing_section` is the missing case of `Completeness.FindSection`. `test_empty_section` is `CompletenessFacts.PlaceholderSectionEmpty`. The complete handoff case is `CompletenessFacts.CompleteHandoffPasses`.

## Findings

| source | as written | input that shows it | evidently intended | confidence | as-written member | corrected member |
|---|---|---|---|---|---|---|
| crates/bito-lint/src/completeness.rs:110 | the fifth placeholder is the three characters U+00E2 U+20AC U+201D. These are the UTF-8 bytes of an em-dash read as Windows-1252 | a section whose only body line is an em-dash (U+2014) | the em-dash itself, so that such a section is empty; `readability.rs:184` spells a real em-dash correctly | not executed; high | CompletenessFacts.DashSectionPresentAsWritten | CompletenessFacts.DashSectionEmpty |

`Completeness.Check` and `Completeness.FindSectionAsWritten` keep the list exactly as written. `Completeness.CheckIntended` and `Completeness.FindSection` use the corrected list. `CompletenessFacts.DashHandoffDisagrees` shows the two checks disagreeing on a whole handoff. Every lemma about `Completeness.CheckWith` and `Completeness.FindSectionWith` holds for either list.
