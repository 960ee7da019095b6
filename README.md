# PLR Content Selector — a Dafny model

PLR Content Selector is three small Python scripts for reworking "private
label rights" articles. This project models their logic:

- **Ad-lib game** (`addlibgame.py`). Every word whose part-of-speech tag is one
  of the targeted tags becomes a numbered placeholder `{TOKEN1}`, `{TOKEN2}`, …,
  and a dict records the word and tag each placeholder replaced. The player
  gives one answer per placeholder, and each placeholder is then replaced by
  its answer, in dict order.
- **Synonym spinner** (`spintext.py`). One file is picked from a directory
  tree. Every targeted word becomes the first lemma name of its first WordNet
  synset, or stays the same when there is none.
- **Article packer** (`articlepacker.py`). The script walks a source tree and
  keeps the files whose name ends in one of the given extensions. It checks the
  requested count and samples that many files without replacement. It copies
  them into an output folder and writes `readme.md` (bullets in selection
  order) and `index.html` (links in sorted order).

The modules follow the scripts:

- `AdLib`, `Spin` and `Packer` model the three scripts.
- `Strings` models the Python `str` operations they use: `join`, `split`,
  `endswith` with a tuple, and `replace`.
- `Numerals` models `str(n)`.
- `Dicts` models an insertion-ordered dict as a sequence of entries. `Assign`
  plays the role of `d[k] = v`.
- `StringOrder` models Python's string order and `list.sort`.
- `Paths` models `os.path.join`, `os.path.basename` and the file walk.
- `Tagging` models the (word, tag) pairs the tagger produces.
- `Wrappers` defines `Option` and `Result`.

Some values come from outside the program, so the model takes them as inputs:

- The tagger's output is a `seq<Tagged>`.
- WordNet is a function from a word to the lemma names of each of its synsets.
- `os.walk` output is a `seq<WalkEntry>`, one entry per directory in walk order.
- The player's answers are a sequence in prompt order.
- The result of `int()` is an `Option<int>`.
- Whether the source folder exists is a `bool`.

Randomness (`random.choice` and `random.sample`) is modelled as a choice of
any valid position or positions.

The model follows the code in these details:

- **Category name.** The category named in a prompt comes from an exact
  lookup of the tag (`NN`, `JJ`, `VB`, otherwise "word"). It does not come
  from the tag's first two letters, so `NNS` is a "word"
  (`AdLib.Describe`).
- **Target tags.** These are compared by exact equality, not as prefixes.
  They are split on `,` verbatim, so typing `NN, JJ, VB` as the prompt
  suggests targets `" JJ"`, not `JJ` (`AdLib.SpaceAfterCommaIsKept`).
- **Substitution order.** Placeholders are substituted one after the other,
  in dict insertion order.
- **Listings versus copies.** There is one link and one bullet per selected
  file. Two selected files with the same basename are copied to the same
  output path, so the later copy overwrites the earlier one and there are
  fewer copies than links (`Packer.SameBasenameCollides`).
- **Listings over copies.** `index.html` and `readme.md` are written into the
  output folder after the copies. A selected file with either basename is
  copied and then overwritten by the listing, so it has no surviving copy
  (`Packer.ListingsReplaceCopies`).

## Model

| member | source | states |
|---|---|---|
| Numerals.NatToString | addlibgame.py:27 | `str(n)` is a non-empty string of decimal digits |
| Numerals.NatToStringNoLeadingZero | addlibgame.py:27 | `str(n)` starts with `0` exactly when `n` is 0, so it has no leading zero |
| Numerals.ParseNatToString | addlibgame.py:27 | reading the digits of `str(n)` back gives `n` |
| Numerals.NatToStringInjective | addlibgame.py:27 | different counters print differently |
| AdLib.Placeholder | addlibgame.py:27 | `{TOKEN<n>}` starts with `{`, ends with `}`, has no brace inside and no space |
| AdLib.PlaceholderInjective | addlibgame.py:27 | different counters give different placeholders |
| AdLib.PlaceholderNotInOther | addlibgame.py:27 | no placeholder occurs inside another (`{TOKEN1}` is not in `{TOKEN10}`) |
| AdLib.Matches | addlibgame.py:25-26 | the recorded tokens are no more than the tokens, and every one has a targeted tag |
| AdLib.Templated | addlibgame.py:25-32 | one output token per input token |
| AdLib.Replacements | addlibgame.py:25-30 | one dict entry per targeted token |
| AdLib.PrefixStep | addlibgame.py:25-32 | one more token adds one templated token, and adds it to the matches exactly when its tag is targeted |
| AdLib.ReplacementsStep | addlibgame.py:26-30 | a targeted token appends the entry under the next numbered placeholder; any other token appends nothing |
| AdLib.ReplacementKeysDistinct | addlibgame.py:28 | the placeholders in the dict are pairwise different |
| AdLib.NextPlaceholderFresh | addlibgame.py:27-28 | the next placeholder is not yet a key, so `replacements[token] = …` appends |
| Dicts.Assign | addlibgame.py:28 | `d[k] = v` keeps keys distinct; it overwrites the entry of an existing key in place and otherwise appends |
| AdLib.TokenizeStep | addlibgame.py:25-32 | one loop step: the dict assignment and the appended token match the specification of the longer prefix |
| AdLib.TokenizeArticle | addlibgame.py:18-34 | returns the templated tokens joined by single spaces, and the dict of placeholders in order |
| AdLib.MatchesPrefix | addlibgame.py:25-30 | the targeted tokens of a prefix of the article are a prefix of its targeted tokens |
| AdLib.MatchAt | addlibgame.py:25-30 | a targeted token is the match numbered by the targeted tokens before it |
| AdLib.PlaceholderDisplaces | addlibgame.py:25-32 | each position holds its own word, or the key of the dict entry that records the word and tag it displaced |
| AdLib.PlaceholderCount | addlibgame.py:25-30 | there are as many dict entries as positions whose tag is targeted |
| AdLib.NoMatchKeepsText | addlibgame.py:25-34 | with no targeted tag the dict is empty and the text is the words joined by spaces |
| AdLib.Describe | addlibgame.py:39-46 | the category is noun, adjective or verb exactly for the tags NN, JJ or VB, and "word" exactly for every other tag |
| AdLib.Prompts | addlibgame.py:45-47 | one prompt per dict entry |
| AdLib.UserInputs | addlibgame.py:45-48 | the answers dict has the same keys, in the same order, as the placeholder dict |
| AdLib.CollectStep | addlibgame.py:45-48 | each key is new when it is assigned, so the answers dict grows by one entry per prompt |
| AdLib.CollectUserInputs | addlibgame.py:37-50 | returns the answers under the placeholder keys in dict order, and the prompts shown |
| AdLib.GenerateNewArticle | addlibgame.py:53-58 | the result is each key replaced by its answer, one key after the other in dict order; an empty dict leaves the text unchanged |
| Strings.ReplaceBySelf | addlibgame.py:56 | replacing a pattern by itself changes nothing |
| Strings.ReplaceAbsent | addlibgame.py:56 | a text without the pattern is unchanged |
| Strings.ReplaceWhole | addlibgame.py:56 | a text that is exactly the pattern becomes the replacement |
| Strings.ReplaceAroundSeparator | addlibgame.py:56 | an occurrence never spans a separator the pattern lacks |
| Strings.ReplaceJoin | addlibgame.py:56 | replacing in a space-joined text is replacing in each token |
| AdLib.RestoreToken | addlibgame.py:56 | replacing the next placeholder restores its own token and leaves every other token alone |
| AdLib.RestoreStep | addlibgame.py:55-56 | each replacement restores exactly one more displaced word |
| AdLib.RestorePrefix | addlibgame.py:55-56 | after `m` entries the first `m` placeholders are restored |
| AdLib.RoundTrip | addlibgame.py:18-58 | answering each prompt with the displaced word gives back the words joined by single spaces, unless a word contains a placeholder's text |
| Strings.Split | addlibgame.py:66 | `split(',')` gives at least one piece, and no piece contains a comma |
| Strings.JoinSplit | articlepacker.py:46 | the pieces joined back with the separator are the answer |
| Strings.SplitWithoutSeparator | addlibgame.py:66 | a text without a comma is one piece |
| Strings.SplitAtFirstSeparator | addlibgame.py:66 | the first comma ends the first piece |
| AdLib.TargetTags | addlibgame.py:66 | the target tag list is never empty |
| AdLib.SpaceAfterCommaIsKept | addlibgame.py:66 | `A, B, C` targets `A`, `" B"` and `" C"`, so a token tagged exactly `B` is not targeted |
| Spin.Synonym | spintext.py:48-54 | the first lemma of the first synset when both exist; the word itself otherwise |
| Spin.SpinArticle | spintext.py:57-69 | targeted words are swapped and the others kept, joined by spaces; if no swap changes a word, the text is the words joined |
| Spin.SpinDependsOnlyOnFirstLemma | spintext.py:48-54 | two lookups that agree on every targeted word's first synonym spin the same way |
| Spin.PickRandomFile | spintext.py:40-45 | fails exactly when no directory has a file; otherwise returns one of the walked paths |
| Paths.Basename | articlepacker.py:80 | a basename contains no `/` |
| Paths.BasenameIsLastSegment | articlepacker.py:80 | the basename is the suffix after the last `/` |
| Paths.BasenameAfterSlash | articlepacker.py:80 | a name after a `/` is its own basename |
| Paths.BasenameOfJoin | articlepacker.py:35 | a plain file name joined under any folder has that name as its basename |
| Paths.DirPaths | articlepacker.py:33-35 | a directory contributes at most one path per file |
| Paths.DirPathsMember | articlepacker.py:33-35 | a path comes from a directory exactly when one of its kept files joins to it |
| Paths.WalkAppend | articlepacker.py:32-35 | walking two parts of a listing is walking each part in turn |
| Paths.WalkMember | articlepacker.py:30-36 | a path is collected exactly when some directory lists a kept file that joins to it |
| Paths.FilteredAppend | articlepacker.py:34 | filtering a concatenation is filtering each part |
| Paths.DirPathsFiltersAll | articlepacker.py:33-35 | one directory's filtered paths are its unfiltered paths with the non-matching basenames removed |
| Paths.WalkFiltersAll | articlepacker.py:30-36 | the filtered walk is the unfiltered one with the non-matching basenames removed, order kept |
| Paths.WalkEmpty | spintext.py:41-44 | the unfiltered walk is empty exactly when every directory is |
| Paths.DirPathsAll | spintext.py:43-44 | with no filter a directory contributes one path per file |
| Packer.NoFilterWhenFirstPieceBlank | articlepacker.py:60 | there is no filter exactly when the answer is blank or starts with a comma |
| Packer.ExtensionFilterKeepsAnswer | articlepacker.py:46 | a filter's pieces, joined by commas, are the answer |
| Packer.GetAllFiles | articlepacker.py:30-36 | the nested loop collects exactly the walk's kept paths in walk order |
| Packer.Select | articlepacker.py:68 | one selected entry per chosen position |
| Packer.Sample | articlepacker.py:68 | `k` distinct in-range positions, and the entries found there |
| Packer.DropLastPosition | articlepacker.py:68 | removing the position of the last entry leaves distinct positions into the rest |
| Packer.SelectSubMultiset | articlepacker.py:68 | a sample without replacement never repeats an entry more often than the population holds it |
| StringOrder.LessEqTotal | articlepacker.py:89 | any two strings are ordered one way or the other |
| StringOrder.LessEqTransitive | articlepacker.py:89 | the string order is transitive |
| StringOrder.LessEqAntisymmetric | articlepacker.py:89 | strings ordered both ways are equal |
| StringOrder.Insert | articlepacker.py:89 | the result holds the list's elements plus the inserted one, with multiplicity |
| StringOrder.InsertSorted | articlepacker.py:89 | inserting into a sorted list keeps it sorted |
| StringOrder.SortStrings | articlepacker.py:89 | the sorted links are in ascending order and a permutation of the links |
| Packer.MdLinesAppend | articlepacker.py:85 | the bullets of a concatenation are the bullets of each part, in order |
| Packer.Names | articlepacker.py:80 | one name per selected file |
| Packer.Links | articlepacker.py:84 | one link per name |
| Packer.ListingStep | articlepacker.py:79-85 | copying one more file adds one link, one bullet line and one copy |
| Packer.BuildListings | articlepacker.py:74-100 | readme is the header plus bullets in selection order; index is the sorted links joined by `<br>` and wrapped; copies maps each output path to the file copied there last, less the two paths the listings are written to |
| Packer.ListingsReplaceCopies | articlepacker.py:79-100 | a selected file's copy survives exactly when its basename is neither `index.html` nor `readme.md` |
| Packer.CopiesLastWins | articlepacker.py:79-82 | every selected file's output path is copied, and holds that file unless a later selection has the same output path |
| Packer.CopiesKeys | articlepacker.py:79-82 | the copied files are exactly the selection's output paths |
| Packer.CopiesAtMostSelected | articlepacker.py:79-82 | there are no more copies than selected files |
| Packer.SameBasenameCollides | articlepacker.py:80-85 | two selected files with the same basename leave fewer copies than selected files, while both listings keep one entry per selected file |
| Packer.Pack | articlepacker.py:39-100 | the script's validation order: a missing source folder, then an unparsable count, then a count above the candidates aborts; when the folder exists and the count parses, the run succeeds exactly when the count is at most the number of candidates, and then selects that many files drawn without replacement from the candidates, with the listings above and the copies that the listings do not overwrite |
| Strings.Join | addlibgame.py:34 | definition of `sep.join(parts)`; `JoinSplit` and `ReplaceJoin` state its properties |
| Strings.EndsWith | articlepacker.py:34 | definition of `s.endswith(suffix)`: the last characters of `s` are `suffix` |
| Strings.EndsWithAny | articlepacker.py:34 | definition of `s.endswith(tuple(suffixes))`: some suffix matches, and an empty tuple matches nothing |
| Strings.Interleave | addlibgame.py:56 | definition of `s.replace("", rep)`: `rep` once before each character and once at the end |
| Strings.StartsWith | addlibgame.py:56 | definition of the test `replace` makes at each scanning position: the pattern starts the rest of the text |
| Strings.ReplaceAll | addlibgame.py:56 | definition of `s.replace(pat, rep)`: scanning left to right, each occurrence is replaced without overlap and the replacement is not rescanned; the empty pattern behaves as `Interleave` |
| Strings.ReplaceCopiesFirst | addlibgame.py:56 | where the pattern does not start the text, `replace` copies the first character and scans on |
| Strings.ReplaceStepMatch | addlibgame.py:56 | one scanning step that matches before a separator keeps the replacement on the left side of it |
| Strings.ReplaceStepCopy | addlibgame.py:56 | one scanning step that copies a character before a separator keeps it on the left side of it |
| Paths.PathJoin | articlepacker.py:35 | definition of POSIX `os.path.join(a, b)`, also used at articlepacker.py:81 and spintext.py:44 |
| Paths.PathJoinParts | articlepacker.py:35 | the joined path ends with the name, and starts with the folder unless the name is absolute |
| Paths.Keep | articlepacker.py:34 | definition of the filter test: no filter, or the name ends with one of the extensions |
| Paths.Walk | articlepacker.py:32-35 | definition of the collected paths, directory by directory; `WalkMember` and `WalkFiltersAll` state its properties |
| Packer.ExtensionFilter | articlepacker.py:60 | definition of `extensions if extensions[0] else None` over the split answer of line 46; `NoFilterWhenFirstPieceBlank` and `ExtensionFilterKeepsAnswer` state its properties |
| Spin.Spun | spintext.py:62-67 | one output token per tagged token: a targeted word's synonym, any other word unchanged |
| AdLib.ApplyAll | addlibgame.py:55-56 | definition of replacing every key by its answer, in dict order; `RoundTrip` states what it restores |
| AdLib.Prompt | addlibgame.py:47 | definition of the prompt text for one placeholder |
| Tagging.Targeted | addlibgame.py:26 | definition of `pos in target_pos`: exact equality with one of the listed tags |
| Packer.Link | articlepacker.py:84 | definition of the `<a href="name">name</a>` link for one copied file |
| Packer.MdLines | articlepacker.py:85 | definition of the bullet lines `- name` in selection order; `MdLinesAppend` states how they compose |
| Packer.Readme | articlepacker.py:76-85 | definition of `readme.md`: the header line, then the bullet lines |
| Packer.IndexHtml | articlepacker.py:89-92 | definition of `index.html`: the links sorted by `SortStrings`, joined by `<br>` and wrapped in the page |
| Packer.OutputPath | articlepacker.py:80-81 | definition of the output path: the output folder joined with the file's basename |
| Packer.Copies | articlepacker.py:79-82 | definition of the copied files as a map from output path to the selected file copied last; `CopiesKeys` and `CopiesLastWins` state its properties |
| Packer.ListingFiles | articlepacker.py:95-100 | definition of the two listing paths: `index.html` and `readme.md` joined under the output folder |
| StringOrder.LessEq | articlepacker.py:89 | definition of Python's `<=` on strings, code point by code point with a proper prefix first; `LessEqTotal`, `LessEqTransitive` and `LessEqAntisymmetric` make it a total order |

## Left out

- Tokenization, part-of-speech tagging and WordNet (NLTK) are inputs. The
  model covers only what happens to their output.
- The model leaves out file reading and writing, `input`, `print`,
  `logging`, `exit` and the `pip` bootstrap. Answers and outcomes are inputs
  instead.
- Encoding detection and conversion (`chardet`, `read_file_with_encoding`,
  `get_encoding_type`, `convert_to_utf8`) are left out, because they work on
  file contents. The line on BuildListings and Pack below covers how they can
  abort the packer.
- `int()` is not modelled. Its outcome is an input: `None` when it raises.
- Pack: a negative count is excluded by the precondition. `random.sample`
  raises `ValueError` for it, which is a crash the script does not handle.
- Sample, PickRandomFile: the choice is any valid one. Uniform distribution is
  not modelled.
- Copies: an output path is mapped to the selected file it was copied from.
  Its contents are not modelled, so neither is the re-encoding that
  `convert_to_utf8` may apply to them. `os.makedirs` and the existence check
  of the output folder are left out.
- SortStrings: a functional sort; `list.sort` sorts in place and the model
  does not capture that.
- Paths: `os.walk` sub-directory lists are never used by the scripts, so the
  walk entries leave them out. Symbolic links and walk errors are not
  modelled.
- PathJoin: models POSIX `os.path.join` only.
- Paths, BuildListings: file names that are not valid UTF-8 are outside the
  model. On POSIX `os.walk` decodes them with `surrogateescape`, giving lone
  surrogates that a Dafny `string` cannot hold. In the script such a name
  reaches the strict UTF-8 write of `index.html` (articlepacker.py:96), which
  raises `UnicodeEncodeError`, leaving `index.html` truncated and `readme.md`
  unwritten.
- The `__main__` blocks of `addlibgame.py` and `spintext.py` are not
  modelled beyond `AdLib.TargetTags`. They are prompts and file I/O around
  the modelled functions.
- BuildListings, Pack: copying and conversion are assumed never to raise. In
  the script, `shutil.copy` raises `SameFileError` when a selected file
  already sits at its output path. `convert_to_utf8` also raises an uncaught
  `TypeError` when no encoding is detected, because it catches only
  `UnicodeDecodeError`. Either error stops the loop after the earlier copies,
  and neither `index.html` nor `readme.md` is written. The model returns
  `Ok` with both listings in these cases.
