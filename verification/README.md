# Dictionary crawler extraction rules, in Dafny

This project models the core of `crawler_dictionary/cli.py`, a command-line
tool that looks words up in the Cambridge online dictionary. The model covers:

- the extraction rules of `parse_dictionary_html`:
  - the not-found check;
  - the canonical word taken from the `<title>` regular expression or the
    headword;
  - part-of-speech label normalisation and de-duplication;
  - the per-label definition-block loop, with its fallback and preferred
    candidates and its early stop;
  - resolution of the two candidates into an entry;
- the retry schedule of `fetch_with_retry`;
- the batch side of the tool:
  - `read_words_from_file`;
  - `determine_output_filename`;
  - the per-word loop of `process_word_list`.

The model does not include the network or HTML parsing:

- A fetch becomes a sequence of attempt outcomes.
- A parsed page becomes a `Page` value holding what the XPath queries return:
  - whether the title is the generic site title;
  - whether an entry body exists;
  - the headword text;
  - the part-of-speech label texts;
  - for each normalised label, its definition blocks.

Each block carries its definition text, if it has a definition element, and
its example texts.

Modules:

- `Wrappers`: `Option` and `Result`.
- `Seqs`: filtering, mapping, and first-occurrence de-duplication. It has two
  versions of de-duplication:
  - a reference definition, `FirstOf` / `FirstOccurrences`;
  - the seen-set loop, `DedupFrom` / `Dedup`.
- `Text`:
  - `str.strip()` over Python's full whitespace set;
  - ASCII `lower()`;
  - `str.replace(pat, '')`.
- `TitleMatch`: `re.search(r'<title>([^|]+)\|', html)`. It is given both as a
  declarative match predicate and as a left-to-right search.
- `Extraction`: the page model and `parse_dictionary_html` after the fetch.
- `Fetch`: `fetch_with_retry` and the word lookup.
- `Batch`: reading the word list, choosing the output name, and the batch loop.

The model follows the code. In four places the code does something its own
comments do not make plain:

- **Backoff.** With the default three attempts, the sleeps are 1 and 2
  seconds. The comment at `cli.py:17` lists 1, 2, 4, but no sleep follows the
  last attempt (`DefaultScheduleAllFail`).
- **The result's word is not always lower-case or non-empty.** The comment
  at `cli.py:38` says "use the input word", and it is used unnormalised:
  - When neither the title pattern nor a headword is found, the input word is
    kept exactly as given.
  - A title group of only whitespace normalises to the empty string.
  - `CanonicalWord` states the lower-case and trimmed properties only for the
    title and headword branches.
- **The fallback candidate's example never reaches the output.** The
  comment at `cli.py:98` calls the first definition a fallback option, and
  `cli.py:103-104` and `cli.py:120-121` carry an example along with it. But
  any non-empty example also makes its block the preferred one and ends the
  loop, so a fallback entry never has an example (`EntrySpec`,
  `FallbackLaw`).
- **A definition can be empty.** The comment at `cli.py:123` says an entry
  is added only if it has a definition, but `"definition" in pos_entry` only
  checks that the key is present. A definition element whose text strips to
  `""`, or to `":"`, still produces an entry with an empty definition.

## Model

| member | source | states |
|---|---|---|
| Extraction.NormaliseShape | crawler_dictionary/cli.py:59 | `Normalise` models `.strip().lower()`. A normalised label has no surrounding whitespace and no upper-case letter, and normalising it again changes nothing |
| Extraction.DedupLabels | crawler_dictionary/cli.py:57-65 | No part-of-speech type is processed twice |
| Extraction.DedupLabelsSpec | crawler_dictionary/cli.py:57-65 | The processed types are the normalised labels in first-occurrence order: each normalised label exactly once, and processing a prefix of the labels yields a prefix of the processed types |
| Seqs.DedupIsFirstOccurrences | crawler_dictionary/cli.py:57-65 | The `processed_pos` seen-set loop computes exactly the reference first-occurrence de-duplication |
| Seqs.FirstOccurrencesElements | crawler_dictionary/cli.py:62-65 | First-occurrence de-duplication keeps every value and keeps it once |
| Seqs.FirstOccurrencesPrefix | crawler_dictionary/cli.py:58-65 | A value met earlier is never placed after a value met later |
| Extraction.CleanDefinition | crawler_dictionary/cli.py:85-88 | The cleaned definition is a prefix of the stripped text, at most one character shorter, and shorter exactly when the stripped text ends in a colon |
| Extraction.CleanDefinitionOf | crawler_dictionary/cli.py:85-88 | Surrounding whitespace is removed first, then one trailing colon of what remains |
| Extraction.CleanDefinitionOneColon | crawler_dictionary/cli.py:87-88 | Only one trailing colon is removed: a definition ending in `::` keeps one |
| Extraction.CleanDefinitionStripsFirst | crawler_dictionary/cli.py:85-88 | Whitespace just before the trailing colon survives, because stripping happens before the colon is removed |
| Extraction.BlockPreferenceLaw | crawler_dictionary/cli.py:78-117 | Over the page's blocks: the first block with a definition element and a non-empty stripped first example gives the entry its cleaned definition and that stripped example |
| Extraction.BlockFallbackLaw | crawler_dictionary/cli.py:78-121 | Over the page's blocks: when no block qualifies as preferred, the first block with a definition element gives the entry its cleaned definition and no example |
| Extraction.ScanSpec | crawler_dictionary/cli.py:75-112 | `Scan` models the block loop. The loop's preferred candidate is the first block with a non-empty example. Without one, the fallback is the first block with a definition element, recorded without an example |
| Extraction.EntrySpec | crawler_dictionary/cli.py:75-121 | `ResolveViews` (and `ResolveLabel` over blocks) models the loop plus resolution. A label's entry comes from the first block with an example, else from the first block with a definition (without an example), else there is none |
| Extraction.PreferenceLaw | crawler_dictionary/cli.py:106-117 | The first block with an example supplies both the definition and the example |
| Extraction.FallbackLaw | crawler_dictionary/cli.py:98-121 | With no example anywhere, the first definition-bearing block supplies the definition and the entry has no example |
| Extraction.ExamplePresence | crawler_dictionary/cli.py:103-121 | The entry carries an example exactly when some definition-bearing block has a non-empty example |
| Extraction.LabelDropped | crawler_dictionary/cli.py:115-125 | A label yields an entry exactly when one of its blocks has a definition element |
| Extraction.SkippedBlocksIrrelevant | crawler_dictionary/cli.py:80-82 | Blocks without a definition element play no part, whatever examples they carry |
| Extraction.NoLaterInspection | crawler_dictionary/cli.py:106-112 | The loop stops at the first block with an example, so replacing every later block leaves the entry unchanged |
| Extraction.ResolveLabelSome | crawler_dictionary/cli.py:123-125 | A label's entry exists exactly when one of its blocks, as the page gives them, has a definition element |
| Extraction.EntriesFor | crawler_dictionary/cli.py:58-125 | Every emitted entry is the resolution of its own label's blocks |
| Extraction.EntriesTypes | crawler_dictionary/cli.py:58-125 | The emitted types are exactly the processed labels that have a definition-bearing block, in processing order |
| TitleMatch.MatchAt | crawler_dictionary/cli.py:39 | The attempt at one position returns a group only if the pattern matches there with that group, and returns nothing only if no group matches there |
| TitleMatch.TitleGroupSpec | crawler_dictionary/cli.py:39-40 | `TitleGroup` models the `re.search` call. The search returns the group of the leftmost match, and returns nothing exactly when no position matches |
| TitleMatch.MatchAtOfMatch | crawler_dictionary/cli.py:39 | Wherever the pattern matches, the attempt at that position returns exactly that match's group |
| TitleMatch.TitleGroupOfLeftmost | crawler_dictionary/cli.py:39-40 | A match with no match further left is the one found, and its group is returned |
| TitleMatch.TitleGroupShape | crawler_dictionary/cli.py:39-41 | A found group is non-empty and contains no `\|` |
| Extraction.CanonicalWord | crawler_dictionary/cli.py:38-46 | From the title or the headword, the word is trimmed and lower-case (and, from the title, free of `\|`); with neither, it is the input word unchanged |
| Extraction.CanonicalWordFromTitle | crawler_dictionary/cli.py:39-41 | When the leftmost title match's group is whitespace, then trimmed text `t`, then whitespace, the word is `t` lower-cased |
| Extraction.CanonicalWordFromHeadword | crawler_dictionary/cli.py:39-46 | With no title match, a headword of whitespace, then trimmed text `t`, then whitespace gives the word `t` lower-cased |
| Extraction.Extract | crawler_dictionary/cli.py:34-36 | Extraction fails exactly on a generic-title page without an entry body, and then with the not-found error for the input word |
| Extraction.ExtractSpec | crawler_dictionary/cli.py:48-127 | A valid page yields the canonical word and, in processing order, one entry per processed label that has a definition-bearing block. No type repeats, every type is some label's normalised text, and every entry is its label's resolution |
| Text.StripUnique | crawler_dictionary/cli.py:85 | `Strip` models `strip()`, and is characterised by what it keeps: whitespace around trimmed text is removed and the text is returned exactly |
| Text.StripIdempotent | crawler_dictionary/cli.py:59 | Stripping twice is stripping once |
| Text.StripEmptyIffAllSpace | crawler_dictionary/cli.py:137 | A stripped line is empty exactly when the line is all whitespace |
| Text.Lower | crawler_dictionary/cli.py:41 | Lower-casing keeps the length, turns each ASCII upper-case letter into its lower-case partner (code point plus 32), and changes no other character |
| Text.LowerIdempotent | crawler_dictionary/cli.py:41 | Lower-casing twice is lower-casing once |
| Text.RemoveAllLength | crawler_dictionary/cli.py:144 | `RemoveAll` models `replace(pat, '')`. Each occurrence that `replace` deletes removes exactly the pattern's length |
| Text.RemoveAllAbsent | crawler_dictionary/cli.py:144 | A path without the pattern passes through unchanged |
| Text.RemoveAllFirst | crawler_dictionary/cli.py:144 | The leftmost occurrence is deleted, the text before it is kept, and the scan resumes after it. With `RemoveAllAbsent` this fixes the result of `replace(pat, '')` on every input |
| Fetch.RetrySucceeds | crawler_dictionary/cli.py:10-17 | `FetchWithRetry` models the retry loop. The first attempt that gets a response decides the result, whatever its status. It is returned after `i + 1` attempts and the sleeps `1, 2, ..., 2^(i-1)` |
| Fetch.RetryExhausted | crawler_dictionary/cli.py:10-18 | When every attempt raises, the loop makes exactly `max_retries` attempts and sleeps `2^k` after each failed attempt but the last. It then fails |
| Fetch.DefaultScheduleAllFail | crawler_dictionary/cli.py:10-18 | With the default three attempts all failing, the sleeps are 1 and 2 seconds, and three attempts are made |
| Fetch.NoAttempts | crawler_dictionary/cli.py:11-18 | A non-positive `max_retries` makes no attempt and fails at once |
| Fetch.Lookup | crawler_dictionary/cli.py:28-36 | The lookup fails with the fetch error exactly when all three attempts raise. Otherwise it is the extraction of the first page that was received |
| Fetch.LookupIgnoresEarlierFailures | crawler_dictionary/cli.py:10-28 | Transport failures before a response leave no trace: succeeding on the third attempt gives what succeeding on the first gives |
| Batch.ReadWords | crawler_dictionary/cli.py:137 | Every word read is non-empty and has no surrounding whitespace, and there are no more words than lines |
| Batch.ReadWordsAppend | crawler_dictionary/cli.py:137 | Reading works line by line: the words of two parts of a file are those of each part, concatenated |
| Batch.ReadWordsLine | crawler_dictionary/cli.py:137 | A line contributes nothing exactly when it is all whitespace, and otherwise contributes its stripped text |
| Batch.ReadWordsIdempotent | crawler_dictionary/cli.py:137 | Reading a word list that was already read gives it back unchanged |
| Batch.OutputFilename | crawler_dictionary/cli.py:144-145 | With more arguments than the threshold (three after `--file`, else two), the last argument is the name. Otherwise the name ends in `.json` and is `4` characters shorter per `.txt` occurrence; which characters remain is fixed by `Text.RemoveAllFirst` and `Text.RemoveAllAbsent` |
| Batch.OutputFilenameNoTxt | crawler_dictionary/cli.py:144-145 | A path without `.txt` gets `.json` appended |
| Batch.OutputFilenameWithFlag | crawler_dictionary/cli.py:145 | After `--file <path>`, a fourth argument names the output. Without one, the name comes from the path |
| Batch.OutputFilenameBarePath | crawler_dictionary/cli.py:145 | After a bare path, a third argument already names the output |
| Batch.OutputFilenameOfStem | crawler_dictionary/cli.py:144-145 | `<stem>.txt` defaults to `<stem>.json` whenever no `.txt` starts inside the stem, e.g. `./words.txt` and `words.v2.txt` |
| Batch.OutputFilenameRemovesEveryTxt | crawler_dictionary/cli.py:144 | Every `.txt` is removed, not only a trailing one: `<stem>.txt.txt` defaults to `<stem>.json` for the same stems |
| Batch.ProcessWordList | crawler_dictionary/cli.py:161-170 | The results are the successful lookups in input order. A pause follows exactly each successful word that is not the last, and the pauses come in increasing order |
| Batch.SuccessesAreFiltered | crawler_dictionary/cli.py:163-170 | Failed words leave no placeholder: the results correspond one to one, in order, to the successful outcomes |
| Batch.DelaysBeforeMembers | crawler_dictionary/cli.py:166-168 | A pause follows a word exactly when its lookup succeeded and it is not the last word |
| Batch.DelaysBeforeOrdered | crawler_dictionary/cli.py:166-168 | Pauses are recorded in word order, each after a word already processed |
| Seqs.IncreasingUnique | crawler_dictionary/cli.py:166-168 | An increasing sequence is determined by its elements, so the pause list is fixed by which words a pause follows |
| Batch.SecondWordFails | crawler_dictionary/cli.py:161-170 | Of three words where the second fails, the first and third are returned, with one pause, after the first |

## Left out

- The HTTP request: `requests.get`, the URL, the user-agent header and the
  response object. A fetch is modelled by the sequence of attempt outcomes:
  a response or a transport error.
- `time.sleep`: the fetch records the seconds it would sleep, and the batch
  loop records after which word it would pause. The pause length, always
  2 seconds (`cli.py:168`), is not recorded.
- HTML parsing and XPath evaluation (`lxml`). The `Page` value holds the
  query results. The section query at `cli.py:73` has quirks that the model
  does not derive:
  - it compares the raw span text with the normalised label;
  - `following-sibling` reaches every later `pos-body` sibling;
  - a label containing `'` breaks the query.

  The blocks found for a label are whatever the page gives for that
  normalised label.
- `xpath("string()")` text extraction. Definition and example texts are given
  as strings.
- Crashes from elements without text (`.text` being `None` at `cli.py:46` and
  `cli.py:59`): labels and the headword are modelled as strings.
- Text.Lower: models ASCII lower-casing only. Python's `lower()` also maps
  non-ASCII letters, and Unicode case tables are out of scope.
- The general regular-expression engine: only the one title pattern is modelled.
- Fetch.FetchWithRetry: requires an outcome for every attempt the loop can
  make (`max_retries` outcomes). This is an artefact of replacing the network
  by a list of outcomes.
- Fetch.Lookup: uses the default three attempts, as `parse_dictionary_html`
  does. Other retry bounds are covered by `FetchWithRetry`.
- Text.RemoveAll: is defined for a non-empty pattern only. Python's
  `replace('', '')` case is never used here, since the pattern is always
  `.txt`.
- Exceptions other than the two modelled ones (fetch failure and not found),
  which `process_word_list` would also catch and skip.
- File I/O:
  - opening and reading the word file, and its line splitting and encoding;
  - `json.dump` of the results;
  - `os.path.exists`.
- `print`, `tqdm` progress output, `print_usage`, `main`, `sys.argv` parsing
  beyond `determine_output_filename`, `sys.exit`, and the single-word path of
  `main`. These are console I/O and process control.
- `setup.py` and the package `__init__.py`: packaging only.
