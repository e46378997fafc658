# Translation consolidator, modelled in Dafny

`consolidate_translations.py` joins numbered translation fragments
(`1.txt`, `002.txt`, …) from one directory into a single XePersian LaTeX
document. It runs in three stages, and the model follows them module by
module:

- **Locator** (`locator.dfy`, `get_txt_files`). It walks the directory's
  entries in scan order and keeps each name that ends in `.txt` and starts
  with a run of ASCII digits followed by `.txt`. Each kept name becomes a
  fragment `(key, path)`. The list is built with an append loop and then
  stable-sorted by key. A missing directory yields the empty list.
- **Decoder** (`decoder.dfy`, `read_file`). The codecs are tried in
  order and the first that decodes the whole file wins. If all of them
  fail, a lossy decode is used. Text-mode reading turns `\r\n` and `\r`
  into `\n`.
- **Normalizer** (`normalizer.dfy`, `clean_content`). It drops what the
  UTF-8 `ignore` round trip drops, which is lone surrogates. It then turns
  every run of three or more newlines into two, turns every run of two or
  more spaces into one, and strips whitespace from both ends.
- **Assembler** (`assembler.dfy`, `consolidate_translations`). With no
  fragments it returns without writing. Otherwise the output is the
  LaTeX header, then one block per fragment in key order, then the footer.
  A block is a `% --- فایل NNN.txt ---` comment line, the fragment's
  normalized text and a blank line. A fragment whose normalized text is
  empty adds nothing. The write is the method's result: `None` when
  nothing is written, `Some(text)` otherwise.

`basics.dfy` holds the shared values. A Python `str` is a sequence of code
points (`Text`), lone surrogates included. `decimal.dfy` holds `int()` of a
digit string, `str()` of a number and the `{n:03d}` format.

Each `re.sub` is modelled as the regular-expression engine runs it: a
leftmost, greedy left-to-right scan (`SubRuns`). It is proved equal to a
function that caps each maximal run (`CapRuns`), and the properties of the
normalizer are proved about `CapRuns`. `sorted` is modelled as an
insertion sort. It is proved sorted, stable (the fragments with any one
key keep their scan order), a permutation, and the only sequence with
those properties.

## Model

| member | source | states |
|---|---|---|
| Locator.MatchesGlob | consolidate_translations.py:15 | `glob("*.txt")` keeps names ending in `.txt`; KeyOf and Locator.ScanMembership state which entries survive both filters |
| Locator.MatchKey | consolidate_translations.py:16-18 | `re.match` of `(\d+)\.txt` with `int()` of the group; its property is stated by Locator.MatchKeySpec |
| Locator.KeyOf | consolidate_translations.py:15-18 | The key of an entry that passes the glob and the pattern, else nothing; used by Locator.ScanMembership |
| Locator.Scan | consolidate_translations.py:13-19 | `txt_files` after the scan loop, in scan order; Locator.ScanMembership and Locator.ScanLength state its contents and size, Locator.GetTxtFiles runs the loop against it |
| Locator.JoinPath | consolidate_translations.py:19 | `str(file)` for an entry of the directory: the directory path, a separator and the name; Locator.ScanMembership states that each kept fragment carries this path |
| Locator.Emit | consolidate_translations.py:16-19 | What one iteration appends: the single fragment of a kept entry, else nothing; covered by Locator.ScanMembership |
| Locator.Candidates | consolidate_translations.py:13-19 | `txt_files` before sorting, empty for a missing directory; Locator.GetTxtFiles states it |
| Locator.GetTxtFiles | consolidate_translations.py:11-20 | The append loop followed by the sort: empty for a missing directory; sorted ascending by key; for every key, the fragments with that key in scan order; a fragment is in the result iff some directory entry produces it |
| Locator.MatchKeySpec | consolidate_translations.py:16-18 | A name matches iff it begins with a non-empty digit run immediately followed by `.txt` (anything may follow, since the match is anchored only at the start); the key is the unbounded value of that run |
| Locator.ScanMembership | consolidate_translations.py:15-19 | A fragment is in the scan result iff some entry has that key and the joined path |
| Locator.ScanLength | consolidate_translations.py:15-19 | The scan appends at most one fragment per entry |
| Locator.Insert | consolidate_translations.py:20 | One insertion step of the stable sort: placed before the first element whose key is not smaller; Locator.InsertWithKey and Locator.InsertMultiset state what it keeps |
| Locator.SortByKey | consolidate_translations.py:20 | `sorted(..., key=...)` as an insertion sort; Locator.SortByKeySpec and Locator.StableSortUnique state it |
| Locator.InsertMultiset | consolidate_translations.py:20 | An insertion adds exactly the inserted fragment to the multiset of fragments |
| Locator.InsertWithKey | consolidate_translations.py:20 | An insertion puts the fragment in front of the fragments with its key and leaves the other keys' fragments as they were; since the sort inserts the earlier fragment into the sorted rest, this is what keeps equal keys in scan order |
| Locator.SortByKeySpec | consolidate_translations.py:20 | `sorted(..., key=num)` is ordered by key, keeps the scan order among equal keys (both `1.txt` and `01.txt` are kept), and is a permutation of its input of the same length |
| Locator.StableSortUnique | consolidate_translations.py:20 | Any key-sorted sequence with the same fragments per key, in the same order, equals the result of the stable sort |
| Locator.SeparatorNameParsesBack | consolidate_translations.py:16-18 | The name `NNN.txt` written in a block's separator line matches the file-name pattern again and yields the same key |
| Decimal.Value | consolidate_translations.py:18 | `int()` of an ASCII digit string, unbounded; Decimal.Numeral and Decimal.ValueLeadingZeros state its properties |
| Decimal.Numeral | consolidate_translations.py:91 | `str(n)` is a non-empty digit string without a leading zero whose value is n, and has at least four digits from 1000 on |
| Decimal.Pad3 | consolidate_translations.py:91 | `{n:03d}`; Decimal.Pad3Spec states it |
| Decimal.Pad3Spec | consolidate_translations.py:91 | `{n:03d}` is all digits, reads back as n, is exactly three characters below 1000, and is never truncated: from 1000 on it is the full numeral |
| Decimal.NumeralWidth | consolidate_translations.py:91 | The numeral has one digit below 10, two below 100, three below 1000 and at least three from 100 on |
| Decimal.ValueLeadingZeros | consolidate_translations.py:18 | `int()` of a digit string ignores leading zeros, so `01.txt` and `1.txt` share a key |
| Decoder.FirstSuccess | consolidate_translations.py:24-33 | The text of the first codec that succeeds, with no earlier codec succeeding, or the lossy decode when every codec fails |
| Decoder.Decode | consolidate_translations.py:22-33 | What `read_file` returns: the first-success decode with newlines translated; Decoder.ReadFile runs the loop against it |
| Decoder.TotalCodecShadowsFallback | consolidate_translations.py:24-33 | With a codec that decodes everything in the chain (latin-1), the result comes from that codec or one before it, so the lossy decode is never reached |
| Decoder.ReadFile | consolidate_translations.py:22-33 | The loop with its early return computes exactly the first-success decode, with newlines translated |
| Decoder.TranslateNewlines | consolidate_translations.py:27-28 | Text read in text mode contains no carriage return and is no longer than the raw text |
| Decoder.TranslateNewlinesTwoPass | consolidate_translations.py:27-28 | Universal-newline reading equals two independent passes: drop every CR that precedes an LF, then turn each remaining CR into LF; so `\r\n` and a lone `\r` each become one `\n` |
| Decoder.TranslateNewlinesIdentity | consolidate_translations.py:27-28 | Text without carriage returns is read back unchanged |
| Normalizer.DropSurrogates | consolidate_translations.py:38 | The UTF-8 `ignore` round trip; Normalizer.DropSurrogatesSpec states it |
| Normalizer.DropSurrogatesSpec | consolidate_translations.py:38 | The UTF-8 `ignore` round trip leaves no surrogate, never lengthens the text, and keeps every other code point as often as it occurred |
| Normalizer.DropSurrogatesIdentity | consolidate_translations.py:38 | Text without surrogates comes through the round trip unchanged |
| Normalizer.SubRuns | consolidate_translations.py:41-42 | `re.sub` of a pattern `c{min,}` as the engine scans, leftmost and greedy; Normalizer.SubRunsIsCapRuns relates it to run capping |
| Normalizer.CapRuns | consolidate_translations.py:41-42 | Every maximal run of c capped at n - 1; the Normalizer.CapRuns lemmas below state its properties |
| Normalizer.SubRunsIsCapRuns | consolidate_translations.py:41-42 | The left-to-right greedy substitution of runs of at least n copies by n-1 copies equals capping every maximal run at n-1 |
| Normalizer.SubRunsShortRun | consolidate_translations.py:41-42 | Inside a run too short to match, the substitution copies code points one at a time |
| Normalizer.CapRunsNoRun | consolidate_translations.py:41-42 | After the substitution no run of n copies remains |
| Normalizer.CapRunsIdentity | consolidate_translations.py:41-42 | Text that has no run of n copies is left unchanged by the substitution |
| Normalizer.CapRunsLength | consolidate_translations.py:41-42 | The substitution never lengthens the text |
| Normalizer.CapRunsKeepsOthers | consolidate_translations.py:41-42 | Every code point other than the collapsed one occurs as often as before |
| Normalizer.CapRunsChars | consolidate_translations.py:41-42 | The substitution introduces no code point that was not in its input |
| Normalizer.CapRunsHead | consolidate_translations.py:41-42 | The first code point survives the substitution |
| Normalizer.CapRunsCopiesRun | consolidate_translations.py:41-42 | A leading run of a different code point is copied unchanged |
| Normalizer.CapRunsPreservesNoRun | consolidate_translations.py:41-42 | Collapsing the spaces (line 42) cannot re-create a run of three newlines removed at line 41 |
| Normalizer.Collapse | consolidate_translations.py:41-42 | The two substitutions in order; Normalizer.CollapseIsCapping states it |
| Normalizer.CollapseIsCapping | consolidate_translations.py:41-42 | The two substitutions together cap newline runs at two and space runs at one |
| Normalizer.CollapseKeepsOthers | consolidate_translations.py:41-42 | Tabs and every other code point apart from `\n` and the space are untouched by the collapse steps |
| Basics.IsSpace | consolidate_translations.py:44 | The code points `str.isspace()` accepts, which `strip()` removes: the tab-to-carriage-return controls, the file, group, record and unit separators, the space, U+0085, U+00A0, U+1680, U+2000-U+200A, U+2028, U+2029, U+202F, U+205F and U+3000; Normalizer.StripSpec states the strip in terms of it |
| Normalizer.TrimStart | consolidate_translations.py:44 | The leading half of `strip()`; Normalizer.TrimStartSpec states it |
| Normalizer.TrimEnd | consolidate_translations.py:44 | The trailing half of `strip()`; Normalizer.TrimEndSpec states it |
| Normalizer.Strip | consolidate_translations.py:44 | `strip()` with Python's whitespace set; Normalizer.StripSpec states it |
| Normalizer.TrimStartSpec | consolidate_translations.py:44 | The leading strip removes exactly the longest whitespace prefix |
| Normalizer.TrimEndSpec | consolidate_translations.py:44 | The trailing strip removes exactly the longest whitespace suffix |
| Normalizer.StripSpec | consolidate_translations.py:44 | `strip()` yields the slice between the longest whitespace prefix and suffix, and that slice has no whitespace at either end |
| Normalizer.StripIdentity | consolidate_translations.py:44 | `strip()` leaves text without whitespace at its ends unchanged |
| Normalizer.CleanContent | consolidate_translations.py:35-44 | `clean_content`: the round trip, the two substitutions and the strip, in that order; Normalizer.CleanContentSpec states it |
| Normalizer.CleanContentSpec | consolidate_translations.py:35-44 | Normalized text has no three consecutive newlines, no two consecutive spaces, no surrogates, no whitespace at either end, and is never longer than the input |
| Normalizer.CleanContentIdempotent | consolidate_translations.py:35-44 | Normalizing twice gives the same text as normalizing once |
| Normalizer.CleanContentExample | consolidate_translations.py:41-44 | `clean_content("a\n\n\n\nb   c")` is `"a\n\nb c"` |
| Normalizer.NoRunJoin | consolidate_translations.py:89-93 | Two texts without m-runs of c join into one without them when the run at the seam is shorter than m |
| Assembler.Separator | consolidate_translations.py:91 | The comment line naming a fragment; Assembler.SeparatorRuns and Locator.SeparatorNameParsesBack state its properties |
| Assembler.Block | consolidate_translations.py:89-93 | What the loop appends for one fragment; Assembler.BlocksSkipEmpty, Assembler.BlockNoRun and Assembler.AppendBlock state it |
| Assembler.FragmentText | consolidate_translations.py:86-87 | A fragment's decoded and normalized text; Assembler.LoadFragment computes it and Assembler.FragmentNormalized states its shape |
| Assembler.Load | consolidate_translations.py:84-87 | The fragments read and normalized in order; Assembler.LoadEntries states it |
| Assembler.Blocks | consolidate_translations.py:84-93 | The blocks of the fragments in order; Assembler.BlocksAppend and Assembler.AppendBlocks state it |
| Assembler.ConsolidateTranslations | consolidate_translations.py:74-99 | Nothing is written iff no fragment was found; otherwise the text written is the header, the blocks of the fragments in stable key order, and the footer, and only fragments with non-empty normalized text have blocks |
| Assembler.AppendBlocks | consolidate_translations.py:82-95 | The accumulated buffer is the header followed by the block of each fragment, in the given order |
| Assembler.AppendBlock | consolidate_translations.py:89-93 | The three appends of one iteration leave the buffer followed by exactly that fragment's block, and nothing when its text is empty |
| Assembler.LoadFragment | consolidate_translations.py:86-87 | A fragment's text is its file decoded by the codec chain and then normalized |
| Assembler.LoadStep | consolidate_translations.py:84-93 | One loop iteration appends exactly the block of the current fragment |
| Assembler.LoadEntries | consolidate_translations.py:84-87 | Each loaded entry is the fragment's key with its normalized text, in the order of the sorted list |
| Assembler.BlocksAppend | consolidate_translations.py:84-93 | The blocks of two consecutive lists of fragments are the blocks of the first followed by those of the second |
| Assembler.BlocksSkipEmpty | consolidate_translations.py:89 | A fragment with empty normalized text contributes neither separator nor text: the blocks equal those of the non-empty fragments alone |
| Assembler.NonEmpty | consolidate_translations.py:89 | Exactly the fragments whose normalized text is non-empty are kept |
| Assembler.FragmentNormalized | consolidate_translations.py:86-87 | Every fragment's text is trimmed and holds no three newlines in a row |
| Assembler.LoadNormalized | consolidate_translations.py:84-87 | The same for every loaded fragment |
| Assembler.SeparatorRuns | consolidate_translations.py:91 | The separator line starts and ends with exactly one newline and holds no two in a row |
| Assembler.BlockNoRun | consolidate_translations.py:89-93 | The block of a normalized text holds no four newlines in a row |
| Assembler.BlocksNoRun | consolidate_translations.py:84-93 | The blocks of normalized texts hold no four newlines in a row, seams included |
| Assembler.HeaderRuns | consolidate_translations.py:50-69 | The header ends with exactly one blank line: two newlines after the last non-newline |
| Assembler.FooterRuns | consolidate_translations.py:71-72 | The footer starts with exactly one newline and holds no four in a row |
| Assembler.DocumentRuns | consolidate_translations.py:82-95 | Everything after the header, blocks and footer together, starts with at most one newline and holds no four newlines in a row |

## Left out

- Filesystem I/O is not modelled. The directory is a path, a `present` flag and its entry names in scan order. The bytes of each file come from a function argument. The output file is the method's returned text.
- Console output is not modelled: the `print` lines 78, 85, 101 and 102. The count printed at line 102 includes fragments skipped for empty content. It is only advisory.
- The behaviour of the real codecs is not modelled: `utf-8`, `utf-8-sig` with its BOM, `latin-1` and `errors='ignore'`. These are library calls. The chain is a list of partial decoders plus a total lossy decoder, and only "first success wins, never fails" is proved.
- Locator.MatchKey: `\d` in Python also matches non-ASCII decimal digits, for example Persian ones, and `int()` accepts them. The model accepts only ASCII digits.
- Locator.MatchesGlob: `Path.glob("*.txt")` also returns directories whose name ends in `.txt`, and it matches case-insensitively on Windows. The model treats every listed name as a file and matches case-sensitively.
- Locator.JoinPath: path normalisation by `pathlib` (duplicate or trailing separators, `.`) is not modelled. A path is `directory + "/" + name`.
- The error raised when the output file cannot be written, and exceptions from `open` other than decoding errors, are not modelled.
- The `__main__` entry point and the default arguments of `consolidate_translations` (lines 46, 104-105) are not modelled. The directory is a parameter.
- The LaTeX header and footer are copied verbatim as constants. Of their contents only the newline runs at the header's end and in the footer are proved (Assembler.HeaderRuns, Assembler.FooterRuns). That the header holds no run of four newlines inside it is not proved, because indexing a literal of that length symbolically is beyond the solver's budget. So no four-newline bound is stated for the whole written text: the header's last two newlines plus at most one at the start of the rest make at most three at that seam.
- The write at line 98 opens the file in text mode. On Windows every `\n` is written as `\r\n`. The model's written text is the buffer before that translation.
- The `utf-8-sig` entry of the codec list (line 24) wins only for a file that is exactly the first one or two bytes of a byte-order mark (`EF` or `EF BB`). `utf-8` rejects such a truncated sequence, and `utf-8-sig` reads it as empty text, so the fragment is skipped. For every other file `utf-8` is tried first and accepts the same bytes, and it keeps a leading byte-order mark as U+FEFF. U+FEFF is not whitespace for `strip()`, so it survives right after the separator line. The model takes the codec list as given; Decoder.TotalCodecShadowsFallback states the same shadowing for a total codec.
