# Octicons to Frappe sprite converter, modelled in Dafny

This project models the converter that turns a directory of Octicons SVG
files into one Frappe `icons.svg` sprite sheet
(`scripts/frappe/frappe_generate_icons.py`). It covers four pieces of logic:

- how the converter picks the 24px icons and sorts them;
- how it derives an icon name and a Frappe symbol id from a file name;
- how it extracts a symbol's view box and inner markup from one SVG file;
- how it builds the sheet's line buffer and counts the symbols it writes.

The file system is replaced by values.

- A directory is an optional `Directory`. `None` means the path is not a directory.
- A `Directory` holds the names `os.listdir` returns, in any order, and a map from name to `IconFile`.
- An `IconFile` holds the text `f.read()` returns, which has newlines already normalized to `\n` by text-mode reading, and what the XML parser reports about its root element: the `viewBox` attribute and the serialized children.
- A listed name with no entry in the map is a file that cannot be read.

The run returns a `ConvertResult`: the two early exits, or the line buffer
together with the processed count.

Modules:

- `Wrappers`: `Option`.
- `Text`: the string operations the converter uses, each as Python defines it, with the whitespace set given under "## Left out": `str.endswith`, substring search, `in`, `str.strip()`, `str.split('\n')` and `'\n'.join`.
- `CodePointOrder`: Python's ordering of strings and `sorted()`, as insertion sort. It proves that the order is total and that the sorted list depends only on the multiset of names.
- `IconNames`:
  - `is_24px_icon` and the sorted candidate list;
  - `extract_icon_name`, as a single-pass `.replace('.svg', '')` followed by `re.sub(r'-\d+$', '', …)`;
  - `generate_symbol_id` and the `'-fill' in svg_file` test.
- `SvgExtract`: the regular expression `<svg[^>]*>(.*?)</svg>` under DOTALL, in two forms:
  - the engine's attempt at each start position (`MatchAt`), and the leftmost successful attempt (`Search`);
  - a description in words (`LeftmostGroup`).

  A lemma proves the two forms agree. The module also models the stripped group, the child-serialization fallback and the `0 0 24 24` default view box.
- `Sprite`:
  - the six header lines;
  - one symbol block per accepted file: the opening tag, the content lines, `\t</symbol>` and an empty line;
  - the closing `</svg>`, the processed count and the newline join;
  - `ConvertDirectory`, the loop as the converter runs it, proved equal to `Expected`, the same result stated as a composition of filter, sort, extract, accept and assemble.

The converter keeps a `-fill` marker in the derived name and also appends
`-fill` when building the id. So `x-fill-24.svg` gets the id
`icon-octicon-x-fill-fill-24`. The model keeps this behaviour as written,
and `IconNames.FillVariantIdDoublesMarker` states it.

## Model

| member | source | states |
|---|---|---|
| Text.Find | scripts/frappe/frappe_generate_icons.py:34 | The search returns the first index at or after the start where the pattern occurs. When it returns nothing, the pattern occurs nowhere from the start on. |
| Text.Strip | scripts/frappe/frappe_generate_icons.py:36 | `.strip()` returns text with neither end whitespace, and never longer than its input. |
| Text.StripIsTrim | scripts/frappe/frappe_generate_icons.py:36 | `.strip()` removes only a whitespace prefix and a whitespace suffix, keeping a contiguous middle part. |
| Text.StripUnique | scripts/frappe/frappe_generate_icons.py:36 | Any cut of a whitespace prefix and suffix that leaves stripped text yields exactly `.strip()`'s result. |
| Text.StripIdempotent | scripts/frappe/frappe_generate_icons.py:36 | Stripping twice is the same as stripping once. |
| Text.StripEmptyIff | scripts/frappe/frappe_generate_icons.py:121 | A line strips to the empty string exactly when it is all whitespace, which is the test `if line.strip()`. |
| Text.Split | scripts/frappe/frappe_generate_icons.py:114 | `split('\n')` yields at least one piece and no piece holds a newline. Joining the pieces with newlines gives the text back. |
| Text.SplitJoin | scripts/frappe/frappe_generate_icons.py:138 | For a non-empty list of lines none of which holds a newline, splitting the newline-joined lines gives the same lines back. An empty list is excluded, since joining it and splitting gives `['']`. |
| CodePointOrder.BelowIsLexicographic | scripts/frappe/frappe_generate_icons.py:79 | `Below`, the order `sorted()` uses, holds exactly when `a` is a prefix of `b` or, at the first position where they differ, `a` has the smaller code point. |
| CodePointOrder.BelowTotal | scripts/frappe/frappe_generate_icons.py:79 | Any two names are comparable under Python's string order. |
| CodePointOrder.BelowAntisymmetric | scripts/frappe/frappe_generate_icons.py:79 | Two names that are each at most the other are equal. |
| CodePointOrder.BelowTransitive | scripts/frappe/frappe_generate_icons.py:79 | The string order is transitive. |
| CodePointOrder.Sort | scripts/frappe/frappe_generate_icons.py:79 | `sorted()` returns a permutation of its input in which each name is at most the next. |
| CodePointOrder.SortedUnique | scripts/frappe/frappe_generate_icons.py:79 | Two sorted lists holding the same names, with the same multiplicities, are the same list. |
| IconNames.Stem | scripts/frappe/frappe_generate_icons.py:49-51 | A name that passes `is_24px_icon` (`Is24pxIcon`) is its stem followed by `-24.svg`. |
| IconNames.SuffixedNameIs24px | scripts/frappe/frappe_generate_icons.py:49-51 | Any stem followed by `-24.svg` passes `Is24pxIcon`, and `Stem` gives the stem back. With `Stem`, a name is a 24px icon exactly when it ends with `-24.svg`. |
| IconNames.Candidates | scripts/frappe/frappe_generate_icons.py:79 | A name is a candidate exactly when it is listed and ends with `-24.svg`. Each candidate appears as often as it is listed, and nothing else appears. |
| IconNames.SortedCandidates | scripts/frappe/frappe_generate_icons.py:78-79 | The candidates are sorted by code point and are exactly the listed 24px names, with multiplicity. |
| IconNames.CandidateOrderIndependentOfListing | scripts/frappe/frappe_generate_icons.py:78-79 | Two listings of the same names give the same candidate sequence, whatever order `os.listdir` used. |
| IconNames.DropSvgExtByFind | scripts/frappe/frappe_generate_icons.py:56 | `DropSvgExt`, the `.replace('.svg', '')` pass, keeps the text before the leftmost `.svg`, skips the occurrence and continues after it. With no occurrence it keeps the whole text. |
| IconNames.DropSvgExtUnchangedIff | scripts/frappe/frappe_generate_icons.py:56 | `DropSvgExt`, the `.replace('.svg', '')` pass, leaves a name unchanged exactly when `.svg` does not occur in it. |
| IconNames.DropSvgExtConcat | scripts/frappe/frappe_generate_icons.py:56 | The replacement works piecewise on a concatenation whose second part cannot finish a `.svg` begun in the first. |
| IconNames.TrailingDigits | scripts/frappe/frappe_generate_icons.py:59 | The counted suffix is all digits, and the character before it, if any, is not a digit. This is the maximal run that `\d+$` can match. |
| IconNames.StripSizeSuffix | scripts/frappe/frappe_generate_icons.py:59 | `re.sub(r'-\d+$', '', …)` returns a prefix of its input. When it changes the text, what it removed is a hyphen followed by at least one digit and nothing else. |
| IconNames.StripSizeSuffixSpec | scripts/frappe/frappe_generate_icons.py:59 | For `StripSizeSuffix`: if a hyphen is followed only by digits up to the end, the substitution cuts the text there. If there is no such hyphen, the text is left unchanged. |
| IconNames.ExtractIconName | scripts/frappe/frappe_generate_icons.py:54-61 | The name is a prefix of the `.svg`-free file name. When it is shorter, the removed tail is a hyphen followed by at least one digit. |
| IconNames.IconNameOfCandidate | scripts/frappe/frappe_generate_icons.py:54-61 | For `ExtractIconName` on a 24px file the name is its stem with `.svg` deleted. If the stem holds no `.svg`, the name is the stem itself, `-fill` included. |
| IconNames.FillMarkerInStem | scripts/frappe/frappe_generate_icons.py:106 | `IsFillVariant`, the test `'-fill' in svg_file`, holds for a 24px file exactly when its stem contains `-fill`. |
| IconNames.GenerateSymbolId | scripts/frappe/frappe_generate_icons.py:64-68 | The id is `icon-octicon-`, then the name, then `-fill-24` for a fill variant or `-24` otherwise. The lengths add up. |
| IconNames.SymbolIdNameAndFlag | scripts/frappe/frappe_generate_icons.py:64-68 | For a fixed fill flag, the id determines the name. The fill id of a name equals the plain id of the name with `-fill` appended. |
| IconNames.SymbolIdOfCandidate | scripts/frappe/frappe_generate_icons.py:105-107 | `SymbolIdOf`, the id lines 105-107 give a 24px file whose stem has no `.svg`, is built from its stem and from whether that stem holds `-fill`. |
| IconNames.FillVariantIdDoublesMarker | scripts/frappe/frappe_generate_icons.py:105-107 | For any `<base>` with no `.svg` in `<base>-fill`, the file `<base>-fill-24.svg` gets the id `icon-octicon-<base>-fill-fill-24`, with the marker doubled. |
| IconNames.CandidateIdsDistinct | scripts/frappe/frappe_generate_icons.py:105-107 | Distinct 24px files whose stems hold no `.svg` get distinct ids. |
| IconNames.FillMarkerIgnoresExtension | scripts/frappe/frappe_generate_icons.py:106 | Appending `.svg` to a text neither creates nor hides a `-fill` in it. |
| IconNames.ExtensionInStemCollides | scripts/frappe/frappe_generate_icons.py:105-107 | For every `<base>`, `<base>.svg-24.svg` and `<base>-24.svg` are distinct 24px files that get the same id. The `.replace` at line 56 deletes the `.svg` inside the first stem. |
| IconNames.ExtensionDeletedFromStem | scripts/frappe/frappe_generate_icons.py:56 | When `<base>` holds neither `.svg` nor `-fill`, `<base>.svg-24.svg` gets the id `icon-octicon-<base>-24`. |
| SvgExtract.MatchAt | scripts/frappe/frappe_generate_icons.py:34 | An attempt that succeeds at a start position produces a real match there. The match has `<svg`, no `>` until the tag end, a `>`, and then `</svg>`. |
| SvgExtract.MatchAtSpec | scripts/frappe/frappe_generate_icons.py:34 | An attempt fails only when no match starts there. Otherwise it takes the only possible `>` and the nearest `</svg>` after it, as the lazy group requires. |
| SvgExtract.SearchIsLeftmostGroup | scripts/frappe/frappe_generate_icons.py:34 | `Search`, the model of `re.search`, yields the group from the first `>` after the leftmost `<svg` to the first `</svg>` after that `>`. It yields nothing if any of the three is missing. |
| SvgExtract.ChildMarkup | scripts/frappe/frappe_generate_icons.py:38-41 | The fallback, the stripped serializations of the children concatenated, is itself stripped. |
| SvgExtract.ExtractSvgContent | scripts/frappe/frappe_generate_icons.py:20-46 | A result exists exactly when the file is both readable and parseable. The view box is the root's attribute or `0 0 24 24`, and the markup is stripped. |
| SvgExtract.InnerMarkupSpec | scripts/frappe/frappe_generate_icons.py:34-41 | `InnerMarkup` is the stripped text between the first `>` after the leftmost `<svg` and the next `</svg>`. Otherwise it is the children fallback. |
| Sprite.SymbolOpen | scripts/frappe/frappe_generate_icons.py:110 | The opening tag starts with `\t<symbol viewBox="`. The view box follows verbatim, then the namespace attribute, and the line ends with `" id="`, the id and `">`. The lengths add up. |
| Sprite.SymbolOpenParts | scripts/frappe/frappe_generate_icons.py:110 | Given the view box's length, the opening tag determines both the view box and the id. |
| Sprite.IndentNonBlank | scripts/frappe/frappe_generate_icons.py:119-122 | Every emitted line is two tabs followed by non-empty stripped text. There are never more lines than input lines. |
| Sprite.IndentNonBlankComplete | scripts/frappe/frappe_generate_icons.py:119-122 | Every input line that is not blank is emitted, stripped and indented. |
| Sprite.IndentNonBlankSound | scripts/frappe/frappe_generate_icons.py:119-122 | Every emitted line is some input line, stripped and indented. |
| Sprite.ContentLinesSingle | scripts/frappe/frappe_generate_icons.py:114-117 | Content without a newline becomes exactly one line: two tabs and the stripped content. |
| Sprite.ContentLinesAgree | scripts/frappe/frappe_generate_icons.py:114-122 | For non-blank content, `ContentLines` with its single-line shortcut gives the same lines as the per-line rule. |
| Sprite.ContentLinesWellFormed | scripts/frappe/frappe_generate_icons.py:114-122 | `ContentLines` of accepted content yields at least one line. Each line is two tabs and non-empty stripped text, with no newline. |
| Sprite.SymbolBlock | scripts/frappe/frappe_generate_icons.py:110-125 | An accepted file's block ends with `\t</symbol>` and an empty line. |
| Sprite.SymbolBlockCount | scripts/frappe/frappe_generate_icons.py:110-126 | A block opens exactly one symbol, and its first line is the opening tag with the file's view box and id. |
| Sprite.FrameSymbolCount | scripts/frappe/frappe_generate_icons.py:89-96 | The header lines and the closing `</svg>` open no symbol. |
| Sprite.Accepted | scripts/frappe/frappe_generate_icons.py:104 | Only entries with a result, a non-empty view box and non-empty content are kept, in order. |
| Sprite.AcceptedMembers | scripts/frappe/frappe_generate_icons.py:104 | An entry is kept exactly when it is an entry and passes the `viewbox and content` test. |
| Sprite.RejectedEntrySkipped | scripts/frappe/frappe_generate_icons.py:100-104 | A rejected entry is dropped, and the entries after it are still processed as if it were absent. |
| Sprite.FlattenSymbolCount | scripts/frappe/frappe_generate_icons.py:126 | Blocks that each open one symbol open as many symbols as there are blocks. |
| Sprite.Expected | scripts/frappe/frappe_generate_icons.py:71-141 | A run succeeds exactly when the directory exists and has at least one 24px candidate. |
| Sprite.ExpectedFrame | scripts/frappe/frappe_generate_icons.py:89-130 | The buffer begins with the six header lines and ends with `</svg>`. |
| Sprite.ExpectedCount | scripts/frappe/frappe_generate_icons.py:98-126 | The processed count equals the number of symbol-opening lines in the buffer. It is at most the number of candidates. |
| Sprite.IndentLines | scripts/frappe/frappe_generate_icons.py:119-122 | The loop over content lines produces exactly the non-blank lines, stripped and indented, in order. |
| Sprite.IndentContent | scripts/frappe/frappe_generate_icons.py:114-122 | The content step, with its single-line branch, produces exactly `ContentLines`, so `ContentLinesWellFormed` and `ContentLinesAgree` describe its output. |
| Sprite.AppendSymbol | scripts/frappe/frappe_generate_icons.py:110-125 | The appends for one accepted file add exactly `SymbolBlock` to the buffer, which `SymbolBlockCount` describes. |
| Sprite.AppendAll | scripts/frappe/frappe_generate_icons.py:100-127 | The loop leaves the header followed by the blocks of the accepted entries, in order. Its count is the number of accepted entries. |
| Sprite.ConvertDirectory | scripts/frappe/frappe_generate_icons.py:71-141 | The converter's run, with both early exits, the loop and the closing tag, gives exactly the composed result `Expected`. |
| Sprite.ListingOrderIrrelevant | scripts/frappe/frappe_generate_icons.py:78-79 | Two directories listing the same names with the same contents produce the same result. |
| Sprite.RenderedSprite | scripts/frappe/frappe_generate_icons.py:130-138 | `Render`, the newline join, ends with `</svg>` and has no trailing newline. If no line holds a newline, splitting the text at newlines gives the buffer back. |

## Left out

- File-system work is not modelled: `os.path.isdir`, `os.listdir`, opening and reading files, `Path.mkdir` and the final write. The directory and file contents are inputs, and the output is the line buffer plus its newline join.
- XML parsing with ElementTree, and `ET.tostring`, are not modelled. Their outcome is an input: the root's `viewBox` attribute and each child's serialized text. An exception while reading or parsing becomes a missing text or a missing root.
- `print` diagnostics, `sys.argv` handling, `main` and the exit codes are not modelled. They are command-line plumbing. `Converted` stands for the function returning true.
- Only the six C-locale whitespace characters are stripped: space, tab, line feed, carriage return, vertical tab and form feed. `str.strip()` also removes the ASCII separators U+001C–U+001F and the other Unicode whitespace characters. These are not modelled.
- `\d` is taken as the ASCII digits `0`–`9`. Other Unicode decimal digits that Python's `\d` also matches are not modelled.
- `$` matches only at the very end of the name. Python's `$` also matches before a final newline. This never matters here: `extract_icon_name` only sees 24px candidates, and after `.svg` is deleted those end in `-24` (`IconNames.IconNameOfCandidate`).
- Exceptions outside the per-file `try` are not modelled. `os.listdir` (line 78), `Path.mkdir` (line 134) and `open`/`write` (lines 137-138) can raise, and the function then raises instead of returning. `Converted` is the outcome when none of them does.
- Universal-newline reading is not modelled. `IconFile.text` is the text after `\r\n` and `\r` have become `\n`, as `f.read()` returns it. Splitting on `\n` at line 114 therefore sees the same lines as the converter.
- The file encoding (UTF-8) is not modelled: text is a sequence of characters.
- File names are sequences of Unicode scalar values. On POSIX, `os.listdir` (line 78) returns bytes that do not decode as lone surrogates U+DC80–U+DCFF. Names holding them cannot be represented.
