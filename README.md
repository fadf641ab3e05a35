# Auto-Meeting-Minutes, modelled in Dafny

Auto-Meeting-Minutes turns meeting transcripts into minutes with a language
model, in four stages; the second, the outline generator
(`MeetingOutlineGenerator`), is a single model call on the reconciled
transcript and is left out:

- the **comparer** (`MeetingNotesComparer`) reads several parallel
  transcripts of the same meeting, strips each and splits it on the literal
  text `\n---\n` (non-overlapping, left to right, so a `---` first or last
  in the stripped text does not separate, and of two consecutive `---` lines
  only the first does), refuses to go on when the files disagree on their number of blocks, groups
  the blocks by position, renders each group as one prompt body with a
  heading per file (`[<file name without extension> 转写]`), asks the model
  once per group and writes the reconciled transcript;
- the **notes writer** (`MeetingNotesWriter`) parses the generated outline, tagged with
  `<part N>…</part>`, asks the model once per part and writes every reply
  back inside `<part N>\n…\n</part>`, the parts separated by a blank line;
- the **notes checker** (`MeetingNotesChecker`) parses those notes with the
  stricter pattern `<part N>\n…\n</part>`, asks the model once per part and
  writes the checked notes in the same format.

The model covers the text processing of all three: block splitting,
alignment and the block-count check, the prompt-body layout, the two
`re.findall` tag parsers and the dictionary built from their matches, and
the assembly of the written output from the model's replies. The model's
replies are a parameter `replies: nat -> string` (the raw text of the
`i`-th completion of a run); file contents are parameters too.

Modules:

- `Wrappers` — `Option`.
- `Strings` — Python's `str.strip`, `find`, `count`, `split` and `join`,
  with their specifications (`split` and `join` are inverse, the pieces lack
  the separator, `find` reports the leftmost occurrence).
- `Numerals` — `int()` of a digit string and `str()` of a part number.
- `Paths` — POSIX `os.path.splitext`.
- `Comparer` — `read_and_split_files`, `format_blocks` and `process` of the
  comparer.
- `Parts` — the two tag parsers: a scanner proved equal to what the
  patterns describe, and the dictionary comprehension.
- `Notes` — `process` of the writer and of the checker, and the round trip
  from the writer's output through the checker's parser.

## Model

| member | source | states |
|---|---|---|
| Strings.Strip | Auto-Meeting-Minutes.py:23 | the result has no leading or trailing whitespace, and a text already without them is returned unchanged |
| Strings.TrimStartSpec | Auto-Meeting-Minutes.py:23 | the left strip keeps exactly the longest suffix not starting with whitespace, dropping only whitespace |
| Strings.TrimEndSpec | Auto-Meeting-Minutes.py:23 | the right strip keeps exactly the longest prefix not ending with whitespace, dropping only whitespace |
| Strings.StripRemovesOnlySpace | Auto-Meeting-Minutes.py:23 | the stripped text is a contiguous slice of the input and everything cut away on either side is whitespace |
| Strings.StripIgnoresTrailingSpace | Auto-Meeting-Minutes.py:37-38 | appending whitespace to a text never changes its strip, which is why the trailing blank line of `format_blocks` disappears |
| Strings.TrimStartAppend | Auto-Meeting-Minutes.py:23 | the left strip of a concatenation skips an all-whitespace head entirely and otherwise only touches the head |
| Strings.TrimEndAppend | Auto-Meeting-Minutes.py:23 | the right strip of a text followed by whitespace equals the right strip of the text |
| Strings.FindSpec | Auto-Meeting-Minutes.py:141 | `find` reports an occurrence with none before it, and reports none exactly when the pattern occurs nowhere |
| Strings.FindFirst | Auto-Meeting-Minutes.py:141 | an occurrence with no earlier occurrence is the one `find` reports |
| Strings.Split | Auto-Meeting-Minutes.py:23 | `str.split(sep)` always yields at least one block, even for the empty text |
| Strings.SplitAtFirst | Auto-Meeting-Minutes.py:23 | the split cuts at the leftmost occurrence of the separator: the first block is everything before it, the rest is the split of what follows |
| Strings.SplitWithoutSeparator | Auto-Meeting-Minutes.py:23 | a text without the separator is one block, the text itself |
| Strings.JoinSplit | Auto-Meeting-Minutes.py:23 | joining the blocks of a split with the separator gives back the text: splitting loses nothing |
| Strings.SplitPiecesLackSeparator | Auto-Meeting-Minutes.py:23 | no block produced by the split contains the `\n---\n` separator |
| Strings.SplitCount | Auto-Meeting-Minutes.py:23 | a split yields one more block than the separator has non-overlapping occurrences |
| Strings.CountWithoutFind | Auto-Meeting-Minutes.py:23 | a text in which `find` reports no separator counts zero occurrences |
| Strings.CountAtFind | Auto-Meeting-Minutes.py:23 | where `find` reports the first separator, `count` counts it once and continues after it |
| Strings.JoinSnoc | Auto-Meeting-Minutes.py:70 | appending one result to a join adds exactly one separator before it |
| Strings.JoinEnds | Auto-Meeting-Minutes.py:173 | a join starts with its first piece and ends with its last piece |
| Strings.JoinStripped | Auto-Meeting-Minutes.py:38 | a join whose first piece starts and whose last piece ends with visible text needs no stripping |
| Numerals.NatToString | Auto-Meeting-Minutes.py:169 | the printed part number is a non-empty run of ASCII digits with no leading zero, and zero prints as `0` |
| Numerals.DigitsValue | Auto-Meeting-Minutes.py:142 | `int()` of a digit string is zero exactly when every digit is `0` |
| Numerals.LeadingZero | Auto-Meeting-Minutes.py:142 | a leading zero does not change the number `int()` reads, so `<part 007>` is part 7 |
| Numerals.ReadShownNumber | Auto-Meeting-Minutes.py:142 | `int()` of the digits `str()` writes for a part number is that number again |
| Paths.SplitExtSpec | Auto-Meeting-Minutes.py:36 | root and extension concatenate to the file name; the extension is empty exactly when the name has no extension, and otherwise starts at the dot that begins it |
| Paths.SplitExt | Auto-Meeting-Minutes.py:36 | root and extension concatenate to the file name, a non-empty extension starts with a dot and holds no `/` |
| Paths.NonDotBetweenSpec | Auto-Meeting-Minutes.py:36 | the scan past leading dots finds a non-dot character exactly when one lies between the two positions |
| Comparer.SplitFiles | Auto-Meeting-Minutes.py:20-23 | the loop leaves, for every file in order, its stripped text split on `\n---\n` |
| Comparer.Transpose | Auto-Meeting-Minutes.py:30 | `zip(*files)` over equally long files: as many groups as blocks per file, group `i` holding block `i` of every file in file order |
| Comparer.Align | Auto-Meeting-Minutes.py:26-30 | the error is raised exactly when two files differ in block count and carries every file's count; otherwise the groups are the transposition |
| Comparer.ReadAndSplit | Auto-Meeting-Minutes.py:18-30 | `read_and_split_files` fails exactly when two transcripts have different block counts, reporting every count; otherwise group `i` is block `i` of every transcript |
| Comparer.FormatBlocks | Auto-Meeting-Minutes.py:32-38 | the loop that appends each section and a blank line, stripped at the end, yields the sections joined by a blank line and stripped |
| Comparer.FormattedGroupLayout | Auto-Meeting-Minutes.py:34-38 | when the last block has visible text the final strip removes nothing and the prompt body opens with the first file's heading |
| Comparer.SectionEnds | Auto-Meeting-Minutes.py:37 | the first section starts with the first file's heading and, when the last block has visible text, the last section ends with it |
| Comparer.AskPerGroup | Auto-Meeting-Minutes.py:62-66 | one prompt body and one call per group in group order; request `k` is group `k` formatted and result `k` is the `k`-th stripped reply behind two newlines |
| Comparer.RequestAt | Auto-Meeting-Minutes.py:62-64 | the `k`-th prompt body sent is group `k` formatted |
| Comparer.ResultAt | Auto-Meeting-Minutes.py:65-66 | the `k`-th collected result is the `k`-th stripped reply behind two newlines |
| Comparer.Process | Auto-Meeting-Minutes.py:57-74 | a block-count mismatch fails before any call; otherwise one request per aligned group, the results as above, and the written text is the results joined by a newline |
| Comparer.WrittenLayout | Auto-Meeting-Minutes.py:66-70 | the written reconciled transcript is empty for no groups, and otherwise two newlines followed by the bare replies separated by three newlines |
| Parts.LazyGroupSpec | Auto-Meeting-Minutes.py:141 | the lazy `(.*?)` group yields a content exactly when the rest starts with it and the closing marker with no earlier closing marker |
| Parts.TagDigitsSpec | Auto-Meeting-Minutes.py:141 | `<part (\d+)>` is recognised with given digits exactly when the text starts with `<part `, those non-empty digits and `>` |
| Parts.MatchHereSpec | Auto-Meeting-Minutes.py:141 | an attempt at one position yields a match exactly when the pattern describes that match there, so the match is unique |
| Parts.MatchEndsWithClose | Auto-Meeting-Minutes.py:141 | every match ends with the closing marker of its pattern |
| Parts.Scan | Auto-Meeting-Minutes.py:141 | `re.findall` from the left without overlap; every match it reports has a non-empty group of ASCII digits, so `int(num)` is defined on each |
| Parts.ScanSound | Auto-Meeting-Minutes.py:141 | every match `findall` reports is a match of the pattern at some position of the text |
| Parts.MatchedAtShift | Auto-Meeting-Minutes.py:141 | a match at some position after the first `n` characters is a match at some position of the whole text |
| Parts.ScanWithoutTag | Auto-Meeting-Minutes.py:141 | a text with no `<part ` yields no match |
| Parts.ScanWithoutClose | Auto-Meeting-Minutes.py:141 | a text holding the closing marker nowhere yields no match, whatever tags it holds |
| Parts.ScanSkipsUntagged | Auto-Meeting-Minutes.py:141 | any text in front in which no `<part ` starts, whatever other markup it holds, is passed over and contributes no match |
| Parts.ScanIgnoresUnclosedTail | Auto-Meeting-Minutes.py:141 | when every closing marker of the text ends within a prefix, whatever follows that prefix changes nothing: an unclosed tag at the end contributes nothing |
| Parts.MatchesInPrefix | Auto-Meeting-Minutes.py:141 | a match that ends within a prefix is a match of the whole text exactly when it is a match of the prefix |
| Parts.MatchHereUnclosedTail | Auto-Meeting-Minutes.py:141 | the attempt at the start of the text is unaffected by a tail after the last closing marker |
| Parts.Numbers | Auto-Meeting-Minutes.py:142 | the part numbers are the `int()` of each match's digits, in match order |
| Parts.Dedup | Auto-Meeting-Minutes.py:142 | the distinct numbers, each once, and exactly the numbers present |
| Parts.DedupOrder | Auto-Meeting-Minutes.py:142 | the distinct numbers keep first-occurrence order: one listed before another occurs in the input before every occurrence of the later one |
| Parts.KeyIndex | Auto-Meeting-Minutes.py:142 | the position of a key in the dictionary is its only occurrence before that point, or the end when it is absent |
| Parts.AssignSpec | Auto-Meeting-Minutes.py:142 | a dictionary store keeps keys distinct, leaves the key order alone for an existing key and appends a new one, stores the value and keeps every other entry |
| Parts.CollectKeys | Auto-Meeting-Minutes.py:142 | the dictionary has distinct part numbers, in the order of their first occurrence among the matches |
| Parts.CollectLastWins | Auto-Meeting-Minutes.py:142 | a repeated part number takes the stripped content of its last match |
| Parts.CollectWithoutRepeats | Auto-Meeting-Minutes.py:198 | with no repeated number the dictionary lists every match in order, each with its stripped content |
| Parts.CollectFresh | Auto-Meeting-Minutes.py:142 | a last match whose part number has not occurred yet appends exactly one entry with that number and its stripped content |
| Parts.Collect | Auto-Meeting-Minutes.py:142 | the dictionary comprehension yields distinct part numbers and only stripped contents |
| Parts.ParseOutline | Auto-Meeting-Minutes.py:139-142 | the outline parser yields distinct part numbers, each with a stripped content, and nothing for a text without a `<part ` tag |
| Parts.ParseNotes | Auto-Meeting-Minutes.py:195-198 | the notes parser yields distinct part numbers, each with a stripped content, and nothing for a text without a `<part ` tag |
| Notes.Wrapped | Auto-Meeting-Minutes.py:169 | one tagged result per part, result `i` wrapping part `i`'s body in its own number's tag |
| Notes.Answered | Auto-Meeting-Minutes.py:166-168 | the answered parts keep exactly the part numbers of the outline, in the same order, and every body is stripped |
| Notes.WrapReplies | Auto-Meeting-Minutes.py:165-173 | the loop makes one call per part in dictionary order, wraps every stripped reply in its part's tag and joins the results by a blank line |
| Notes.WriterProcess | Auto-Meeting-Minutes.py:159-177 | the outline is parsed after stripping, an untagged outline writes nothing, and when no reply holds `\n</part>` the checker's parser reads the written notes back as the outline's part numbers, in order, with their replies |
| Notes.CheckerProcess | Auto-Meeting-Minutes.py:215-233 | the notes are parsed with the notes pattern, untagged notes write nothing, and under the same condition the checked notes read back as written |
| Notes.AnsweredRoundTrip | Auto-Meeting-Minutes.py:169-173 | replies attached to distinct part numbers read back unchanged through the notes parser when none holds the closing marker |
| Notes.CloseOnlyAtEnd | Auto-Meeting-Minutes.py:197 | in a wrapped body free of `\n</part>`, the lazy group stops at the tag's own closing marker |
| Notes.WrapPartMatches | Auto-Meeting-Minutes.py:197 | the notes pattern matches a wrapped part, giving back its number's digits and its body |
| Notes.WrapPartShape | Auto-Meeting-Minutes.py:169 | a wrapped part has the shape of the notes pattern: tag with the number's digits, a line break, the body, then the closing marker first found at its end |
| Notes.WrapMatches | Auto-Meeting-Minutes.py:169 | the matches expected from serialized parts carry each part's digits and body |
| Notes.ScanSerialized | Auto-Meeting-Minutes.py:197 | scanning serialized parts finds each wrapped part, in order, and nothing else |
| Notes.ScanAfterBlankLine | Auto-Meeting-Minutes.py:173 | the blank line the writer puts between two parts contributes no match |
| Notes.SerializeStripped | Auto-Meeting-Minutes.py:173 | the written notes start with `<` and end with `>`, so reading them back with `strip()` changes nothing |
| Notes.SerializeRoundTrip | Auto-Meeting-Minutes.py:197-198 | parts with distinct numbers and stripped bodies free of `\n</part>` are read back by the notes parser exactly as written |

## Left out

- Network access: the OpenAI client and `call_openai_api` of all three classes (lines 40-55, 144-157, 200-213) are replaced by the `replies` parameter; the prompt texts they send, the model name and the temperature are not modelled. The transcript the writer and the checker send along with each part is therefore not modelled either.
- Newline translation: `open(path, "r")` reads in universal-newline mode, so a `\r` or `\r\n` in a file becomes `\n`; every text the model takes is the text after that translation. The translation itself is not modelled, so a reply holding `\r` can be written and read back differently: `x\r</part>` is read back as `x\n</part>` and the part is cut short there.
- File I/O: opening, reading and writing files and the `Path` arithmetic that builds their names; file contents are parameters and the written text is returned.
- `print` progress messages.
- `MeetingOutlineGenerator` (lines 77-119) and the command-line driver under `__main__` (lines 236-362), including its prompt constants.
- Exceptions other than the block-count mismatch (missing files, decoding errors, network errors).
- Strings.IsSpace: `str.isspace()` is written out as the fixed set of whitespace code points Python recognises; no Unicode database is consulted.
- Numerals.IsDigit: `\d` and `int()` accept only the ASCII digits `0`-`9`; other Unicode decimal digits, which Python's `\d` and `int()` would also accept, are not modelled.
- Paths.SplitExt: follows POSIX `os.path.splitext` (separator `/` only); the Windows variant, which also treats `\` and drive letters as separators, is not modelled.
- Comparer.Process: returns the written text alongside the results, where the source writes it to a file and returns only the results.
- Comparer.FormatBlocks: requires at most as many blocks as file names; in the source every group has exactly one block per file, so this always holds there.
- Notes.WriterProcess: the read-back guarantee is stated only when no stripped reply contains `\n</part>`; a reply that does is cut short by the notes parser, and this is not characterised further. Because of the newline translation above, the program itself reads its notes back this way only when, in addition, no reply holds a `\r`.
- Notes.CheckerProcess: same condition as for the writer.
- Parts.ScanSound: states that every reported match is a match of the pattern somewhere in the text; that `findall` reports every non-overlapping match from the left is the definition of `Scan` itself and is not stated as a separate property.
