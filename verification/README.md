# Sentence-pair dataset reader and dependency-tree linearizer

A Dafny model of the two pieces of plain logic in a sentence-similarity
research pipeline:

- **The dataset split reader** (`DataSet` in `datasets/sts.py`). A split
  holds a file path, a shared vocabulary, an epoch counter and a file
  handle. `next_batch` reads tab-separated lines of the form
  `sentence-1 <TAB> sentence-2 <TAB> score` until it has `batch_size`
  rows. When it reaches end of file it rewinds to the first line and
  counts one completed epoch. Each sentence is split on single spaces. Unless
  `keep_entities` is set, a fixed list of named-entity placeholder tokens is
  then removed from both sentences by `remove_entities`. The constructor of
  the `STS` corpus refuses split options it does not support.
- **The dependency-tree linearizer** (`tools/parse_data_to_dependencytrees.py`).
  `get_parse_tree` turns a parsed sentence into a flat token list. Each
  child subtree is wrapped in `'[' + relation` and `']' + relation` markers:
  left children first, then the word itself, then right children.
  `get_document_root` picks the first token that is its own head, and `parse`
  linearizes the tree below it.

Files:

- `wrappers.dfy`: `Option` and `Result`. These stand in for `None` and for
  raised exceptions.
- `text.dfy`: Python's `str.split(sep)` with a one-character separator, its
  inverse `join`, and `str.strip()` with Python's whitespace set.
- `entities.dfy`: the entity list and `remove_entities`.
- `datasets.dfy`: the split's state machine (`open`, `close`, `set_vocab`,
  `epochs_completed`), row parsing, the read loop of `next_batch`, and
  epoch accounting across a sequence of batches.
- `sts.dfy`: the option check of the `STS` corpus constructor.
- `deptree.dfy`: the tree, its linearization, the document root and `parse`.

How the model represents the source:

- The file is a sequence of lines, each as `readline()` returns it
  (trailing newline included). The open handle is a cursor into that
  sequence. `NextBatch` requires `ValidFile`: no line is empty, a newline
  occurs only at the end of a line, and only the last line may lack one.
  `readline()` returns `''` only at end of file, so an empty line would
  otherwise be read as a malformed row instead of as end of file. A cursor equal to
  the number of lines is end of file: there `readline()` returns `''`.
- The `datafile` attribute has three states: never opened (`None`), open at
  a cursor, or closed. A closed Python file object is still truthy.
  `next_batch` on a closed split therefore passes the "needs to be open"
  check and fails at its first `readline`. The model does the same
  (`ReadOnClosedFile`).
- Epochs and cursor together name a position in the file repeated endlessly:
  `epochs * n + cursor`. Each read that yields a line moves this position
  forward by one. An end-of-file read increments the epoch count and sets the
  cursor to 0, which leaves the position unchanged. From this, after `R >= 1`
  lines read since a new split was first opened, the completed epochs are
  `(R - 1) / n`. `open()` does not reset the counter, so after a re-open
  the `(R - 1) / n` is added to the count the split already had. The
  `i`-th row of a batch that starts at cursor `c` is line `(c + i) % n`.
- A line is stripped with Python's whitespace set before it is split on
  tabs, so a newline or a leading tab is gone before the fields are taken.
- A line with fewer than three tab-separated fields makes `cols[1]` or
  `cols[2]` raise. The model returns `MalformedRow` for such a line. The
  cursor is left past the bad line, and any epoch counted before it stays
  counted, as in the source.
- The entity list is written exactly as in the source, including
  `"LOC" + "PRODUCT"`. A missing comma makes that one entry, `"LOCPRODUCT"`.
  As a result neither `LOC` nor `PRODUCT` is removed. This looks
  unintended. The model keeps the source's behaviour: `LocAndProductKept`
  states it, and the question of the intended list stays open.
- The tree is an explicit inductive datatype. Each node has a surface text,
  a lemma, a relation label, and left and right child lists. Output items
  are first produced as typed tokens (open marker, close marker, word) and
  then rendered to strings. This lets the properties talk about markers
  even when a word begins with a bracket.
- Leaf case of `get_parse_tree`. The early return at line 9 returns a bare
  string. The caller's `ret += ...` would splice that string in character by
  character. This model sends every node, leaves included, through the
  general branch, so a leaf yields `[text]`. The reason: the parser
  library's `children` attribute is a generator, and a generator object is
  always truthy, so `not root.children` is never true. The library is not
  part of this model, so this reading remains an open question.
- Rows may have more than three tab-separated fields; the extra fields are
  ignored (`ExtraFieldsIgnored`). A leading tab is stripped before the split,
  so it is not a field boundary: the fields of `"\tb\tc\t0.5"` are `b`, `c`
  and `0.5` (`LeadingWhitespaceIgnored`).
- After exactly one pass over the file the epoch counter is still 0,
  because end of file is only noticed by the next read
  (`EofNoticedLazily`).

## Model

| member | source | states |
|---|---|---|
| Text.Split | datasets/sts.py:109-111 | `split(sep)` yields one more piece than there are separators, and no piece contains the separator |
| Text.JoinSplit | datasets/sts.py:109-111 | joining the pieces of a split with the separator gives back the original string |
| Text.SplitJoin | datasets/sts.py:109-111 | splitting a join of separator-free pieces gives back exactly those pieces |
| Entities.FilterTokens | datasets/sts.py:85-89 | the filtered sentence contains no listed token and is never longer than the input |
| Entities.FilterMembers | datasets/sts.py:87-89 | a token is in the output exactly when it is in the input and not on the list |
| Entities.FilterCounts | datasets/sts.py:87-89 | every unlisted token occurs as often as in the input; listed tokens occur zero times |
| Entities.FilterAppend | datasets/sts.py:86-89 | filtering commutes with concatenation, so the kept tokens stay in their original order |
| Entities.FilterIdempotent | datasets/sts.py:79-91 | filtering twice gives the same result as filtering once |
| Entities.FilterNoEntities | datasets/sts.py:87-89 | a sentence without listed tokens passes through unchanged |
| Entities.LocAndProductNotListed | datasets/sts.py:80-83 | `LOC` and `PRODUCT` are not on the list; the glued `LOCPRODUCT` is |
| Entities.LocAndProductKept | datasets/sts.py:80-91 | the filter keeps `LOC` and `PRODUCT` and removes only `LOCPRODUCT` |
| Entities.PlaceholdersDropped | datasets/sts.py:79-91 | `[PERSON, eats, ORG]` becomes `[eats]` |
| Entities.RemoveEntities | datasets/sts.py:79-91 | the nested loops return one output sentence per input sentence, each equal to the filtered input |
| DataSets.NewDataSet | datasets/sts.py:63-71 | a new split has completed no epochs, holds no handle, and keeps the given path and vocabulary |
| DataSets.Open | datasets/sts.py:73-74 | opening fails exactly when the file cannot be opened; on success the cursor is at line 0 and epochs, path and vocabulary are unchanged |
| DataSets.Close | datasets/sts.py:76-77 | closing fails exactly when no handle was ever opened; otherwise only the handle changes, to closed |
| DataSets.SetVocab | datasets/sts.py:140-142 | only the vocabulary changes: path, epochs and handle are unchanged |
| DataSets.EpochsCompleted | datasets/sts.py:144-146 | the `epochs_completed` property reads the counter; `EpochsCountWraparounds` and `EofNoticedLazily` state its value in terms of lines read |
| DataSets.Step | datasets/sts.py:104-108 | a read yields a line exactly when the cursor is before end of file, and then returns the line at the cursor and advances by one; at end of file it counts an epoch and rewinds to 0 |
| DataSets.StepPosition | datasets/sts.py:104-108 | each read moves the position `epochs * n + cursor` forward by one exactly when it yields a line |
| DataSets.Steps | datasets/sts.py:103-108 | `k` reads of the loop: each either yields a line or completes an epoch, so the lines yielded and the epochs added sum to `k`, and the cursor stays within the file |
| DataSets.EmptyFileNeverYields | datasets/sts.py:103-108 | on an empty file no number of reads yields a line, and every read adds an epoch, so the loop never ends |
| DataSets.NonEmptyFileYields | datasets/sts.py:103-108 | on a non-empty file, `k` reads yield at least `k / 2` lines, so the loop ends |
| Text.StripLeft | datasets/sts.py:109 | the left half of `strip()`: the result is a suffix of the input that is empty or starts with a non-whitespace character |
| Text.StripRight | datasets/sts.py:109 | the right half of `strip()`: the result is a prefix of the input that is empty or ends with a non-whitespace character |
| Text.Strip | datasets/sts.py:109 | `strip()` never lengthens a string, and its result is empty or has non-whitespace at both ends |
| Text.CountStrip | datasets/sts.py:109 | stripping never adds a tab, so it can only lower the field count |
| Text.StripTrailingSpace | datasets/sts.py:109 | a trailing whitespace character does not survive `strip()` |
| Text.StripLeftDropsOnlySpace | datasets/sts.py:109 | `strip()` removes only whitespace from the front, and (with `StripLeft`'s contract) stops at the first non-whitespace character |
| Text.StripRightDropsOnlySpace | datasets/sts.py:109 | `strip()` removes only whitespace from the back, and stops at the last non-whitespace character |
| Text.StripUnchanged | datasets/sts.py:109 | a string that neither starts nor ends with whitespace is left unchanged by `strip()` |
| DataSets.ParseRow | datasets/sts.py:109-111 | a line parses exactly when its stripped text has at least two tabs; otherwise the result is `MalformedRow` |
| DataSets.ParseFields | datasets/sts.py:109-111 | stripped text splits into a row exactly when it has at least two tabs; otherwise the result is `MalformedRow` |
| DataSets.ParseFormatRoundTrip | datasets/sts.py:109-111 | a row whose tokens contain no space or tab, whose score contains no tab, whose first token does not start and whose score does not end with whitespace, is written as a line that `strip()` leaves unchanged and that parses back to the same row |
| DataSets.FormatParseRoundTrip | datasets/sts.py:109-111 | a line whose stripped text has exactly three fields parses, and writing the row back gives the stripped line |
| DataSets.ExtraFieldsIgnored | datasets/sts.py:109-111 | any stripped text with at least two tabs parses, and it begins with the parsed row written back, followed by nothing or by a tab: fields past the third are ignored, and the score is the whole tab-free third field |
| DataSets.LeadingWhitespaceIgnored | datasets/sts.py:109-111 | a line with a leading whitespace character, a tab included, parses as the line without it, so the fields shift one place left |
| DataSets.LeadingTabTooFewFields | datasets/sts.py:109-111 | every line with exactly two tabs whose first character is a tab is malformed |
| DataSets.TrailingWhitespaceIgnored | datasets/sts.py:109-111 | a trailing whitespace character never changes how a line parses |
| DataSets.TrailingNewlineIgnored | datasets/sts.py:104-111 | every line parses the same with or without the newline `readline()` keeps |
| DataSets.EntityStep | datasets/sts.py:119-121 | with `keep_entities` the tokens are untouched; without it no listed token remains and the sentence is no longer than before |
| DataSets.ReadRows | datasets/sts.py:101-117 | it collects `k` rows exactly when the `k` lines read cyclically from the cursor all parse; row `j` comes from line `(c + j) % n`; the position advances by the number of lines read; it stops early only at the first line that does not parse |
| DataSets.NextBatch | datasets/sts.py:93-138 | fails with the state unchanged if the split was never opened, if the rescale range is rejected, or if the handle is closed and `batch_size > 0`; otherwise returns exactly `max(batch_size, 0)` rows in each of `s1`, `s2` and `sim`, row `j` from line `(c + j) % n` after the entity step, and, when `batch_size > 0`, the epochs become the old count plus `(c + batch_size - 1) / n` (with no rows the state is unchanged); on a malformed line it fails with the position advanced past that line |
| DataSets.AdvancedCompose | datasets/sts.py:103-108 | reading `k1` lines and then `k2` lines moves the position as reading `k1 + k2` lines does |
| DataSets.SessionAdvances | datasets/sts.py:103-108 | a run of batches moves the position by the sum of the batch sizes |
| DataSets.EpochsCountWraparounds | datasets/sts.py:104-108 | after opening any split and reading `R >= 1` lines in total, the completed epochs are the count before `open` plus `(R - 1) / n`, and the cursor is `(R - 1) % n + 1` |
| DataSets.EofNoticedLazily | datasets/sts.py:104-108 | after exactly `n` lines the counter is still 0 with the cursor at end of file; one more line makes it 1 |
| Sts.CheckOptions | datasets/sts.py:9-14 | construction is refused exactly when a train/validation split or a test split is given, or `use_defaults` is false |
| DependencyTree.Tree | tools/parse_data_to_dependencytrees.py:11-24 | a tree of `n` nodes gives `3n - 2` items |
| DependencyTree.Children | tools/parse_data_to_dependencytrees.py:12-22 | the wrapped children give three items per node they contain |
| DependencyTree.Linearize | tools/parse_data_to_dependencytrees.py:7-24 | the rendered list of strings also has length `3n - 2` |
| DependencyTree.WordsInOrder | tools/parse_data_to_dependencytrees.py:11-24 | removing all markers leaves the in-order traversal (left subtrees, node, right subtrees); there are `n` words and so `2(n - 1)` markers |
| DependencyTree.TreeBalanced | tools/parse_data_to_dependencytrees.py:11-24 | a linearized subtree closes every marker it opens, with matching labels, whatever markers surround it |
| DependencyTree.ChildrenBalanced | tools/parse_data_to_dependencytrees.py:12-22 | each child's `'[' + dep` is closed by its own later `']' + dep` |
| DependencyTree.TreeWellNested | tools/parse_data_to_dependencytrees.py:13-22 | the whole output is properly nested |
| DependencyTree.LemmatizeOnlyWords | tools/parse_data_to_dependencytrees.py:9-17 | `lemmatize` changes only the words: the markers are identical and in the same places, and the words are the lemmas (or texts) in order |
| DependencyTree.DocumentRoot | tools/parse_data_to_dependencytrees.py:26-27 | returns the first token that is its own head, and fails exactly when no token is |
| DependencyTree.Parse | tools/parse_data_to_dependencytrees.py:4-5 | fails exactly when there is no root; otherwise returns the linearization of the root's subtree |

## Left out

- DataSets.NextBatch: the batch is modelled up to the entity step. Id
  conversion (`datasets.dep_seq2id`), begin/end markers
  (`datasets.append_seq_markers`), padding (`datasets.padseq`) and score
  rescaling (`datasets.rescale`) belong to a module that is not part of this
  model. So `seq_begin`, `seq_end`, `pad`, `raw` and the rescale range are
  not parameters. The `s1s[:batch_size]` slices do nothing, because exactly
  `batch_size` rows are collected.
- DataSets.NextBatch: `datasets.validate_rescale` is not part of this model.
  Its verdict is the `rescaleValid` parameter, checked in the same order as
  in the source.
- DataSets.NextBatch: the requires `Terminates` excludes an open handle on
  an empty file with `batch_size > 0` and a valid range. There the source
  loops forever (`EmptyFileNeverYields` states this).
- DataSets.ParseRow: `float(cols[2])` is floating-point parsing, so the
  score is kept as the text of the third field. A non-numeric score, which
  raises in the source, is not modelled.
- Sts.CheckOptions: only the boolean `False` is refused for `use_defaults`.
  The source's `use_defaults is False` is an identity test, so `0` or
  `None` pass it; `use_defaults` is modelled as a `bool`.
- File handles, `open`, `readline` and `seek` as real I/O: the file is a
  sequence of lines fixed for the duration of a run. Whether the file can
  be opened is the `readable` parameter of `Open`. Re-opening does not model
  the leaked old handle.
- The rest of `STS.__init__`, `create_vocabulary` and `__refresh`:
  vocabulary and embedding loading (`load_vocabulary`, `load_w2v`,
  `new_vocabulary`, `preload_w2v`, `save_w2v`) and file paths. These are
  I/O in a module that is not part of this model. Only the option check is
  modelled.
- The parser library (`spacy.load`, tokenization, the parse itself) and
  both `__main__` blocks: the library is a black box that produces the
  annotated tree. A document token's subtree is given with the token.
- templates/sentiment_analysis_regression_sentences.py: TensorFlow graph
  and session set-up, training and evaluation loops, checkpoints, plotting
  and regression statistics. These are foreign calls, I/O and
  floating-point work.
