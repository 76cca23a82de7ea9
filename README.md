# eigenskills registry and skill scripts, modelled in Dafny

This project models the three Python programs of the eigenskills skill
registry:

- **`generate-registry.py`** (module `Registry`) scans `registry/skills/`.
  - For every skill directory it validates the YAML front matter of its
    `SKILL.md`: the text must open with `---`, must be closed by a second
    `---`, must load as a mapping, and must have the fields `name`,
    `description`, `version` and `author`.
  - It hashes the directory's files: relative path, then content, with
    directories in path order and files in name order.
  - It builds one registry record per skill. When any skill fails
    validation it exits with status 1 and writes nothing.
- **`summarize.py`** (module `Summarize`) is an extractive summarizer.
  - It cuts the stripped text into sentences after `.`, `!` and `?`.
  - It scores each sentence by the text-wide frequencies of its non-stop
    words, and takes the best `num_sentences` with a stable descending sort.
  - It prints them in their original order, joined by single spaces.
- **`transform.py`** (module `Humanize`) applies a fixed, ordered table of
  ten case-insensitive, word-bounded phrase replacements. It then collapses
  every whitespace run longer than one character into a single space, and
  strips the result.

Shared pieces:

- `Text`: Python's `str.isspace`, `strip`, ASCII `lower`, the word
  characters behind `\b`, and `" ".join`.
- `Ordering`: Python's string order and a stable `sorted(key=...)`, with the
  proof that sorting by an identifying key ignores input order.
- `Wrappers`: `Option` and `Result`.

How Python behaviour is modelled:

- `re.sub` is a left-to-right scan over match lengths. `\b` is a change of
  word class. A greedy `,?` backtracks when no boundary follows the comma.
- `list.sort(reverse=True)` is an in-place stable insertion sort on an
  array. It has the ordering Python's sort guarantees: descending score,
  ties in sentence order.
- The two loops of `compute_content_hash` and the loop of `main` are
  methods. Each is proved equal to a specification function, and the
  properties are proved about those functions.

The file system, the YAML loader and SHA-256 are inputs:

- A skills-directory listing, absent when the directory is missing. Each
  entry is either not a directory, or a directory with its `SKILL.md` text
  (absent when there is none) and its `os.walk` tree.
- A function from text to a loaded YAML value, absent on a parse error.
- A function from bytes to a hex digest.

`sorted(os.walk(skill_dir))` is modelled as sorting the walk by root.
`os.walk` reports each root once, and the absolute roots sort like the
relative paths used here: the skill directory itself is `""` and comes
first.

## Model

| member | source | states |
|---|---|---|
| Text.Strip | registry/skills/summarize-text/scripts/summarize.py:14-17 | `str.strip()`: the result is the input with a whitespace-only prefix and suffix cut off; it has no whitespace at either end, is the input itself when that has none, and is empty exactly when the input is all whitespace |
| Text.StripKeepsNoDoubleSpace | registry/skills/humanize-ai-text/scripts/transform.py:29 | stripping a text with no two adjacent whitespace characters leaves none |
| Text.RunEnd | registry/skills/humanize-ai-text/scripts/transform.py:29 | definition of the end of the whitespace run from i, which lies between i and the end of the text; its other promises are stated by RunEndSpaces and RunEndIs |
| Text.RunEndSpaces | registry/skills/humanize-ai-text/scripts/transform.py:29 | the run `\s+` found from i is all whitespace and stops at a non-space or at the end of the text |
| Text.RunEndIs | registry/skills/humanize-ai-text/scripts/transform.py:29 | conversely, any whitespace stretch from i that stops at a non-space or at the end is exactly the run found |
| Text.JoinSpaceLength | registry/skills/summarize-text/scripts/summarize.py:45 | the length of `" ".join(xs)` for a non-empty list is the total length of xs plus one per neighbouring pair |
| Text.JoinSpaceAppend | registry/skills/summarize-text/scripts/summarize.py:45 | joining two non-empty lists one after the other is joining each and putting one space between |
| Text.Lower | registry/skills/summarize-text/scripts/summarize.py:19 | ASCII lowering turns a capital into the small letter at the same place in the alphabet and leaves every other character as it is, keeping word characters word characters |
| Text.LowerAll | registry/skills/summarize-text/scripts/summarize.py:19 | `text.lower()` keeps the length and lowers each character in place; the result has no capital, equals the input under case folding, and is the input itself when that has no capital |
| Ordering.StrLeTotal | registry/scripts/generate-registry.py:84 | any two names compare one way or the other |
| Ordering.StrLeAntisym | registry/scripts/generate-registry.py:84 | names that compare both ways are equal |
| Ordering.StrLeTrans | registry/scripts/generate-registry.py:84 | string order is transitive |
| Ordering.Insert | registry/scripts/generate-registry.py:84 | inserting into a sorted list gives a sorted rearrangement with that one element added |
| Ordering.SortBy | registry/scripts/generate-registry.py:84 | `sorted(..., key=...)` returns a rearrangement whose keys are non-decreasing |
| Ordering.SortBySortedIdentity | registry/scripts/generate-registry.py:84 | a list already in key order, equal keys included, is returned exactly as it was |
| Ordering.SortByMembers | registry/scripts/generate-registry.py:84 | sorting keeps exactly the elements it was given |
| Ordering.SortedUnique | registry/scripts/generate-registry.py:84 | a list whose keys identify its elements has one sorted rearrangement |
| Ordering.SortByIgnoresOrder | registry/scripts/generate-registry.py:84 | sorting by an identifying key gives the same list whatever order the input came in |
| Humanize.TableValid | registry/skills/humanize-ai-text/scripts/transform.py:12-23 | the ten rows have non-empty phrases, and no replacement is longer than its phrase |
| Humanize.MatchLength | registry/skills/humanize-ai-text/scripts/transform.py:13-22 | `\b<phrase>\b` or `\b<phrase>,?\b` matches at i exactly when a boundary precedes the phrase, the phrase follows ignoring case, and a boundary follows the phrase or the phrase and a comma; a match ends at a boundary, is the phrase or the phrase and a comma, and takes the comma whenever a boundary follows it |
| Humanize.SubFromShortens | registry/skills/humanize-ai-text/scripts/transform.py:27 | `re.sub` of a row whose replacement is no longer than its phrase never lengthens the text it scans |
| Humanize.SubShortens | registry/skills/humanize-ai-text/scripts/transform.py:27 | the same for one whole `re.sub` call |
| Humanize.ApplyRulesShortens | registry/skills/humanize-ai-text/scripts/transform.py:25-27 | applying such rows one after another never lengthens the text |
| Humanize.ApplyRulesStep | registry/skills/humanize-ai-text/scripts/transform.py:25-27 | applying one more row is one more `re.sub` on the previous result |
| Humanize.ApplyRulesAppend | registry/skills/humanize-ai-text/scripts/transform.py:25-27 | applying a concatenation of row lists is applying the first list, then the second |
| Humanize.NoMatchIdentity | registry/skills/humanize-ai-text/scripts/transform.py:27 | a row whose pattern matches nowhere leaves the text unchanged |
| Humanize.CopyUntil | registry/skills/humanize-ai-text/scripts/transform.py:27 | up to the next match, the substitution copies the text |
| Humanize.CollapseShape | registry/skills/humanize-ai-text/scripts/transform.py:29 | `re.sub(r"\s{2,}", " ", ...)` leaves no two adjacent whitespace characters, never lengthens the text, is empty only for empty input, and starts with whitespace exactly when the input does |
| Humanize.CollapseRun | registry/skills/humanize-ai-text/scripts/transform.py:29 | a run of two or more whitespace characters between non-spaces becomes exactly one space, and the text on either side collapses on its own |
| Humanize.CollapseSingle | registry/skills/humanize-ai-text/scripts/transform.py:29 | a single whitespace character between non-spaces is kept as it is |
| Humanize.CollapseRunAt | registry/skills/humanize-ai-text/scripts/transform.py:29 | the same as CollapseRun, for a run at given positions of one text |
| Humanize.CollapseSingleAt | registry/skills/humanize-ai-text/scripts/transform.py:29 | the same as CollapseSingle, for a character at a given position of one text |
| Humanize.CollapsePrefix | registry/skills/humanize-ai-text/scripts/transform.py:29 | text that ends in a non-space collapses on its own, whatever follows it |
| Humanize.CollapseSuffix | registry/skills/humanize-ai-text/scripts/transform.py:29 | the collapse from a position is the collapse of the text from there |
| Humanize.CollapseKeepsVisible | registry/skills/humanize-ai-text/scripts/transform.py:29 | collapsing keeps every non-whitespace character, in order |
| Humanize.CollapseIdentity | registry/skills/humanize-ai-text/scripts/transform.py:29 | text without a whitespace run is left as it is by the collapse |
| Humanize.Normalize | registry/skills/humanize-ai-text/scripts/transform.py:29 | after collapse-then-strip there is no double whitespace, no whitespace at either end, and the text is no longer than before |
| Humanize.NormalizeKeepsVisible | registry/skills/humanize-ai-text/scripts/transform.py:29 | normalising never adds, drops or reorders a non-whitespace character |
| Humanize.Humanize | registry/skills/humanize-ai-text/scripts/transform.py:11-30 | the loop applies the ten rows in table order and then normalises; the output has no double and no outer whitespace and is never longer than the input |
| Humanize.PlainTextUnchanged | registry/skills/humanize-ai-text/scripts/transform.py:11-30 | a text that no row matches, with no whitespace run and no outer whitespace, is returned unchanged |
| Humanize.UtilizeRowsMatchAlike | registry/skills/humanize-ai-text/scripts/transform.py:15-16 | under `re.IGNORECASE` the `Utilize` and `utilize` rows match at exactly the same places |
| Humanize.UtilizeLeavesNoMatch | registry/skills/humanize-ai-text/scripts/transform.py:15-16 | after the `Utilize` row, the `utilize` pattern matches nowhere in the result |
| Humanize.LowercaseUtilizeNeverFires | registry/skills/humanize-ai-text/scripts/transform.py:15-16 | running the `utilize` row after the `Utilize` row changes nothing |
| Humanize.FourthRowIsNoOp | registry/skills/humanize-ai-text/scripts/transform.py:13-16 | in the pipeline, the output after four rows equals the output after three |
| Humanize.OptionalCommaOnlyBeforeWordChar | registry/skills/humanize-ai-text/scripts/transform.py:18-22 | a `,?` row takes a following comma exactly when a word character comes after it; otherwise the match ends at the phrase and the comma stays |
| Humanize.UtilizeRowTakesLowercase | registry/skills/humanize-ai-text/scripts/transform.py:15 | the `Utilize` row rewrites `utilize` to `Use` |
| Humanize.PhrasePrefixOfWordUntouched | registry/skills/humanize-ai-text/scripts/transform.py:15 | `utilized` is not rewritten: it has no boundary after the phrase |
| Humanize.PhraseSuffixOfWordUntouched | registry/skills/humanize-ai-text/scripts/transform.py:15 | `reutilize` is not rewritten: it has no boundary before the phrase |
| Humanize.CommaBeforeSpaceKept | registry/skills/humanize-ai-text/scripts/transform.py:19 | `Furthermore, x` becomes `Also,, x`: the comma before a space is kept |
| Humanize.CommaBeforeLetterConsumed | registry/skills/humanize-ai-text/scripts/transform.py:19 | `Furthermore,x` becomes `Also,x`: the comma before a letter is consumed |
| Summarize.SplitFrom | registry/skills/summarize-text/scripts/summarize.py:14 | `re.split(r'(?<=[.!?])\s+', ...)`: pieces and separators interleave back to the text; no piece holds a cut; every separator is a non-empty whitespace run after a terminator, with no whitespace left after it |
| Summarize.Sentences | registry/skills/summarize-text/scripts/summarize.py:14 | the split of the stripped text has at least one piece |
| Summarize.SentencesTrimmed | registry/skills/summarize-text/scripts/summarize.py:14 | no sentence begins or ends with whitespace, and all sentences are non-empty exactly when the text is not blank |
| Summarize.FindWords | registry/skills/summarize-text/scripts/summarize.py:19 | `re.findall(r'\b[a-z]+\b', ...)` yields only non-empty words of lower-case letters |
| Summarize.FindWordsSplit | registry/skills/summarize-text/scripts/summarize.py:19 | a non-word character separates the words: those on its left, then those on its right |
| Summarize.FindWordsSingle | registry/skills/summarize-text/scripts/summarize.py:19 | a non-empty run of lower-case letters is found as one word |
| Summarize.FindWordsMixed | registry/skills/summarize-text/scripts/summarize.py:19 | a run of word characters holding a capital, a digit or `_` yields no word |
| Summarize.Words | registry/skills/summarize-text/scripts/summarize.py:19 | the words of a lowered text are non-empty and all lower-case letters |
| Summarize.WordsSplit | registry/skills/summarize-text/scripts/summarize.py:19 | after lowering, a non-word character still separates the words |
| Summarize.WordsSingle | registry/skills/summarize-text/scripts/summarize.py:19 | a run of ASCII letters in any case is one word, its lower-case form |
| Summarize.WordFreq | registry/skills/summarize-text/scripts/summarize.py:34 | the counter holds exactly the non-stop words of the text, each with its number of occurrences |
| Summarize.TotalIsWeightSum | registry/skills/summarize-text/scripts/summarize.py:34-39 | a sentence's score is the sum over its words of their occurrence counts in the text, stop words counting zero |
| Summarize.Ranked | registry/skills/summarize-text/scripts/summarize.py:36-40 | one `(score, i, sentence)` tuple per sentence, the i-th carrying index i |
| Summarize.ScoreSentences | registry/skills/summarize-text/scripts/summarize.py:36-40 | the loop builds, at every position k, the tuple of the k-th sentence with its score |
| Summarize.SortByScore | registry/skills/summarize-text/scripts/summarize.py:42 | the sort rearranges the tuples into descending score, equal scores in sentence order |
| Summarize.InsertAt | registry/skills/summarize-text/scripts/summarize.py:42 | one insertion step extends the ranked prefix by one, rearranges only that prefix and leaves the rest in place |
| Summarize.InsertByIndex | registry/skills/summarize-text/scripts/summarize.py:43 | inserting a tuple into an index-ordered list gives an index-ordered rearrangement with that tuple added |
| Summarize.SortByIndex | registry/skills/summarize-text/scripts/summarize.py:43 | `sorted(..., key=index)` of tuples with distinct indices is an index-ordered rearrangement |
| Summarize.RankedDistinct | registry/skills/summarize-text/scripts/summarize.py:42 | a ranked rearrangement of the sentence tuples has no repeated index |
| Summarize.RankedPrefixIsTop | registry/skills/summarize-text/scripts/summarize.py:42-43 | the first k tuples of the ranking, in sentence order, are k tuples of the text, each beating every tuple left out |
| Summarize.SelectTop | registry/skills/summarize-text/scripts/summarize.py:42-43 | sort, slice and re-sort give a top-k selection |
| Summarize.SelectedIffFewBeaters | registry/skills/summarize-text/scripts/summarize.py:42-43 | a sentence is selected exactly when fewer than k others rank before it |
| Summarize.TopKUnique | registry/skills/summarize-text/scripts/summarize.py:42-43 | there is only one top-k selection, so the summary is determined by the text and the count |
| Summarize.TopPicksSentences | registry/skills/summarize-text/scripts/summarize.py:43-45 | a top-k selection is k sentences of the text, taken at strictly increasing positions |
| Summarize.Summarize | registry/skills/summarize-text/scripts/summarize.py:13-45 | with no more sentences than asked for, the stripped text; otherwise the top selection's sentences, of the slice's size, in sentence order, joined by one space; for a count that is not negative, exactly that many sentences at strictly increasing positions |
| Registry.Find | registry/scripts/generate-registry.py:49 | the leftmost occurrence of the separator at or after a position, or none at all |
| Registry.FindInPrefix | registry/scripts/generate-registry.py:49 | text appended after the first occurrence does not move it |
| Registry.FindUpToFirst | registry/scripts/generate-registry.py:49 | a text cut just before its first separator, with the separator put back, has its first separator there |
| Registry.SplitN | registry/scripts/generate-registry.py:49 | `s.split(sep, n)` gives 1 to n+1 parts that join back to s; each part but the last ends where the first separator after it begins, and with fewer than n cuts the last part holds no separator |
| Registry.FirstMissing | registry/scripts/generate-registry.py:64-70 | none exactly when every required field is present; otherwise the first absent field in list order |
| Registry.CheckFrontMatter | registry/scripts/generate-registry.py:60-72 | accepted exactly when the value is a mapping holding all four required fields, which is then returned unchanged |
| Registry.ParseSkillMd | registry/scripts/generate-registry.py:35-72 | accepted front matter comes from an existing SKILL.md that opens with `---` and has all required fields |
| Registry.FrontMatterIsBetweenDelimiters | registry/scripts/generate-registry.py:49-58 | only the text between the first and second `---` is loaded; whatever follows has no influence |
| Registry.UnclosedFrontMatterRejected | registry/scripts/generate-registry.py:49-52 | an opening `---` never closed is rejected as invalid format |
| Registry.MissingOpeningRejected | registry/scripts/generate-registry.py:45-47 | text that does not open with `---` is rejected as missing front matter |
| Registry.ParseSkillMdAccepts | registry/scripts/generate-registry.py:45-72 | front matter is accepted exactly when the text opens with `---`, splits into three parts, the middle part loads as that mapping, and the mapping has the required fields |
| Registry.RequiresEnv | registry/scripts/generate-registry.py:96 | the given `requires_env` when present and truthy, else the empty list; truthy exactly in the first case |
| Registry.MakeRecord | registry/scripts/generate-registry.py:99-109 | no record exactly when the description is not a string; otherwise each field as the script builds it, the description stripped, and `hasExecutionManifest` exactly when `execution` is present |
| Registry.EncodeChar | registry/scripts/generate-registry.py:28 | UTF-8 takes one to four bytes per code point, by its range, one exactly for ASCII; the lead byte announces the length and every further byte is a continuation byte 0x80..0xBF |
| Registry.EncodeCharRoundTrip | registry/scripts/generate-registry.py:28 | decoding the bytes of a code point gives the code point back |
| Registry.Utf8 | registry/scripts/generate-registry.py:28 | definition of `encode("utf-8")` as the code points encoded one after another, one to four bytes each; its other promises are stated by Utf8Append and Utf8Ascii |
| Registry.Utf8Append | registry/scripts/generate-registry.py:28 | encoding a concatenation concatenates the encodings |
| Registry.Utf8Ascii | registry/scripts/generate-registry.py:28 | ASCII text encodes to its code points, one byte each |
| Registry.RelPath | registry/scripts/generate-registry.py:26-27 | the relative path of a file is its name for the skill directory itself, and otherwise the directory's path, `/`, then the name |
| Registry.FeedFiles | registry/scripts/generate-registry.py:25-30 | the inner loop feeds, file by file in the order given, the relative path and then the content |
| Registry.ContentHash | registry/scripts/generate-registry.py:20-32 | the hash is `sha256:` followed by the hex digest of every directory's files, directories by path and files by name |
| Registry.ContentHashOf | registry/scripts/generate-registry.py:32 | a content hash always begins with `sha256:` |
| Registry.HashStreamHoldsEveryFile | registry/scripts/generate-registry.py:24-30 | the bytes hashed contain, for every file of every directory walked, its relative path followed by its content |
| Registry.HashIgnoresWalkOrder | registry/scripts/generate-registry.py:24 | the bytes hashed do not depend on the order `os.walk` reports distinct directories in |
| Registry.PathAndContentRunTogether | registry/scripts/generate-registry.py:27-30 | nothing separates a path from its content: a file `ab` holding `c` and a file `a` holding `bc` feed the same bytes |
| Registry.ExitStatus | registry/scripts/generate-registry.py:80-122 | the exit status is 0 exactly when the registry was written, and 1 otherwise |
| Registry.Visit | registry/scripts/generate-registry.py:85-109 | one iteration raises exactly on a valid skill whose description is not a string; otherwise it only appends records or adds errors, one for a directory and none for a file |
| Registry.ScanAccounts | registry/scripts/generate-registry.py:84-109 | a loop that does not raise ends with one record or one error per directory |
| Registry.Run | registry/scripts/generate-registry.py:79-113 | no skills directory exactly when the listing is absent; a failed validation has at least one error; a written registry has one record per directory |
| Registry.CrashIsFinal | registry/scripts/generate-registry.py:102 | once the loop has raised, later entries change nothing |
| Registry.Generate | registry/scripts/generate-registry.py:75-122 | `main`: no skills directory, a crash, a validation failure with its count, or the written registry, exactly as the run over the sorted listing gives |
| Registry.Dirs | registry/scripts/generate-registry.py:86-87 | the directory entries of a listing, in order, and nothing else |
| Registry.DirsAppend | registry/scripts/generate-registry.py:86-87 | keeping only the directories of a concatenation is concatenating the directories of each part |
| Registry.ScanSkipsFiles | registry/scripts/generate-registry.py:86-87 | entries that are not directories influence nothing |
| Registry.ValidSkills | registry/scripts/generate-registry.py:90-93 | the entries whose SKILL.md validates, in listing order |
| Registry.ValidSkillsAppend | registry/scripts/generate-registry.py:90-93 | keeping only the valid skills of a concatenation is concatenating the valid skills of each part |
| Registry.ScanSuccessStep | registry/scripts/generate-registry.py:84-109 | one iteration: a file changes nothing, an invalid skill adds one error, a valid skill appends its record |
| Registry.ScanErrors | registry/scripts/generate-registry.py:90-93 | the error count is the number of directories that fail validation |
| Registry.ScanRecords | registry/scripts/generate-registry.py:95-109 | the records are those of the valid skills, one each, in order |
| Registry.ScanCounts | registry/scripts/generate-registry.py:84-109 | both of the above for a loop that did not crash |
| Registry.ScanCrashes | registry/scripts/generate-registry.py:84-102 | the loop raises exactly when some valid skill has a description that is not a string |
| Registry.CrashNamesFirst | registry/scripts/generate-registry.py:84-102 | the run stops at the first such skill |
| Registry.WrittenIffAllValid | registry/scripts/generate-registry.py:80-122 | the registry is written, and the exit status is 0, exactly when the skills directory exists and every directory in it is a valid skill with a string description |
| Registry.WrittenRecords | registry/scripts/generate-registry.py:115-119 | a written registry holds one record per directory, in name order |
| Registry.NoInvalidMeansAllValid | registry/scripts/generate-registry.py:111-113 | with no invalid directory, the valid skills are all the directories |
| Registry.FailedCountsInvalid | registry/scripts/generate-registry.py:111-113 | a failed validation reports the number of invalid directories, which is at least one |
| Registry.RunIgnoresListingOrder | registry/scripts/generate-registry.py:84 | the outcome does not depend on the order `os.listdir` returns distinct names in |

## Left out

- Input and output are not modelled: reading argv or stdin, `print`, messages on stderr, and opening and reading files. The scripts' results are returned as values instead. The exit status is `Registry.ExitStatus`.
- `translate.py` (an HTTP client of a translation service) is not part of this model.
- The TypeScript agent pipeline is not part of this model: task routing, the skill fetcher, the sandboxed executor and the signed audit log. Its source is not among the files modelled.
- The YAML parser is a parameter. Only string-keyed mappings, strings, integers, booleans, null and lists are represented; floats, dates and non-string keys are not.
- SHA-256 is a parameter: the model fixes the exact bytes fed to it, not the digest.
- `json.dump` formatting and any failure to write `registry.json` are not modelled. Nor is the `os.path.exists` case of a `SKILL.md` that is a directory.
- The `SKILL.md` text and the bytes of `SKILL.md` in the hashed tree are separate inputs. The model does not tie them together.
- String encoding errors (lone surrogates met by `encode("utf-8")`) are not modelled.
- Registry.HashIgnoresWalkOrder: covers the order of directories only, not the order of files within one directory.
- Regular expressions over str patterns are Unicode-aware by default; the model uses ASCII rules instead.
  - Word characters for `\b` are `[A-Za-z0-9_]`, so non-ASCII letters and digits are not word characters here.
  - Case-insensitive matching and `str.lower()` fold ASCII letters only. Characters that fold to ASCII, such as `ı`, `İ`, `ſ` and the Kelvin sign, are left out.
- Summarize.SortByScore: sorts with an insertion sort rather than Timsort. It states the same outcome Python guarantees for a stable descending sort, not the intermediate steps.
- `summarize`'s default of three sentences is the constant `Summarize.DefaultSentences`; the command-line `main` that relies on it only reads input and prints, and is not modelled.
- Ordering.SortBy: its contract states a sorted rearrangement; stability is proved only for input already in key order (`Ordering.SortBySortedIdentity`). Every use in the model sorts by a key that identifies its elements, where stability cannot be observed.
- Humanize.Sub, Humanize.SubFrom and Humanize.ApplyRules carry no contract of their own; what they promise is stated by the lemmas beside them (`SubShortens`, `ApplyRulesStep`, `NoMatchIdentity`, `CopyUntil` and others in the table).
- Humanize.CollapseFrom and Humanize.Collapse define `re.sub(r"\s{2,}", " ", ...)` and carry no contract of their own; their promises are stated by CollapseShape, CollapseRun, CollapseSingle, CollapseKeepsVisible, CollapseIdentity, CollapsePrefix and CollapseSuffix.
- Text.JoinSpace defines `" ".join` and carries no contract of its own; its promises are stated by JoinSpaceLength and JoinSpaceAppend.
- Summarize.Total and Summarize.Score define the score `sum(word_freq.get(w, 0) ...)` and carry no contract of their own; their promise is stated by TotalIsWeightSum.
- Registry.Scan defines the loop of `main` over the sorted entries and carries no contract of its own; its promises are stated by Visit, ScanAccounts, ScanSkipsFiles, ScanSuccessStep, ScanErrors, ScanRecords, ScanCounts, ScanCrashes, CrashIsFinal and CrashNamesFirst, and the loop method Generate is proved equal to it.
- Registry.FileBytes, Registry.FilesStream, Registry.DirsStream and Registry.HashStream define the bytes fed to the hasher and carry no contract of their own; their promises are stated by HashStreamHoldsEveryFile, HashIgnoresWalkOrder and PathAndContentRunTogether, and the loop methods FeedFiles and ContentHash are proved equal to them.
