# fwget catalog queries, modelled in Dafny

`fwget.py` is a command-line client for a firmware repository. It fetches
the repository's JSON index (a dictionary from package filename to a record
with `date`, `description`, `target` and `deviceclass`) and then answers one
command:

- `search <term>`: every package whose filename, description, target or
  deviceclass contains the term, ignoring case. The results are sorted by
  date, newest first, and each is printed as the filename padded to 66
  columns, three spaces, and the description with non-ASCII characters
  dropped.
- `locate <term>`: the same matching, but on filename and description only.
  Each match is printed as a download URL.
- `list`: every package, sorted by filename in descending order, printed
  like `search` but padded to 33 columns.
- `download <file>`: fetches one package.

This project models the three queries, the printed lines, the construction
of the index and content URLs, and the choice of command from the first
argument.

Layout, one module per file:

- `text.dfy` (`Text`): the string operations the queries use. These are
  ASCII `lower()`, substring search (`in`) with its offset-based
  definition, Python's code-point string order, `ljust`, and
  `encode('ascii', 'ignore')`.
- `sorting.dfy` (`Sorting`): `sorted(..., key=..., reverse=True)`. A stable
  insertion sort method is proved equal to a reference function. That
  function is shown to be descending, to be a permutation, and to be
  stable. Stability is stated as "for every key, the elements with that key
  keep their input order". The module also proves that these properties
  fix the result uniquely. So any stable descending sort, CPython's
  Timsort included, gives the same output as the model.
- `catalog.dfy` (`Catalog`): the index, a sequence of `(filename, record)`
  pairs in dictionary iteration order, and the tuples each query collects.
- `query.dfy` (`Query`): `search`, `locate` and `list` as methods with the
  source's loops, `if`/`elif` chains and sort calls. Reference functions
  (`Select`, `SortDesc`) specify them, and lemmas prove the properties.
- `cli.dfy` (`Cli`): URL building and the `argv` dispatch chain of the
  `__main__` block, plus a method that runs the chosen query.

Two behaviours of `fwget.py` are easy to miss:

- The `http://` removal from the configured base URL is Python's
  single-pass `str.replace`, applied to that URL only. The token is never
  rewritten, and the result can still contain `http://`
  (`Cli.StripSchemeSinglePass`).
- `locate` and `download` given without a term raise `IndexError`. This is
  `Command.MissingTerm` and `Outcome.IndexError`.

## Model

| member | source | states |
|---|---|---|
| Text.LowerChar | fwget.py:24 | only `A`-`Z` are changed, each to the letter 32 code points higher; the result is never an upper-case ASCII letter |
| Text.LowerIdempotent | fwget.py:24 | lower-casing an already lower-cased string changes nothing |
| Text.ContainsIff | fwget.py:24-31 | the scan used for `a in b` succeeds exactly when `a` occurs at some offset of `b` |
| Text.LexLeTotal | fwget.py:32 | any two strings are comparable under Python's string order |
| Text.LexLeTrans | fwget.py:32 | Python's string order is transitive |
| Text.LexLeAntisym | fwget.py:32 | two strings ordered both ways are equal |
| Text.LJust | fwget.py:34 | `ljust` keeps the whole string as a prefix (no truncation), pads only with spaces, and has length max(len, width) |
| Text.AsciiOnly | fwget.py:34 | the result holds only ASCII characters, keeps every ASCII character of the input as often as it occurs there, and is the input itself when the input is all ASCII |
| Text.AsciiOnlySingle | fwget.py:34 | a single character is kept exactly when it is ASCII |
| Text.AsciiOnlyAppend | fwget.py:34 | dropping distributes over concatenation, so the kept characters stay in input order; with the single-character case this determines the result |
| Query.FormatLine | fwget.py:34 | a printed line starts with the whole filename, then spaces up to column max(len, width) + 3, then the ASCII-only description |
| Sorting.SortedReverse | fwget.py:32 | the insertion sort returns exactly the reference stable descending sort of its input |
| Sorting.SortDescSorted | fwget.py:32 | the sort output is in descending key order |
| Sorting.SortDescPermutation | fwget.py:32 | the sort output is a permutation of its input |
| Sorting.SortDescStable | fwget.py:32 | for every key, the elements with that key come out in their input order |
| Sorting.SortedUnique | fwget.py:92 | two descending sequences that agree on every key's relative order are equal, so a stable descending sort has only one possible result |
| Query.SearchKeepsIff | fwget.py:23-31 | `search` keeps an entry exactly when the lower-cased query occurs in the lower-cased filename, description, target or deviceclass |
| Query.LocateKeepsIff | fwget.py:42-46 | `locate` keeps an entry exactly when the lower-cased query occurs in the lower-cased filename or description |
| Query.KeepsCaseInsensitive | fwget.py:24 | lower-casing the query first changes neither rule's decision |
| Query.SelectMembers | fwget.py:22-31 | a tuple is collected exactly when some kept index entry produced it |
| Query.SelectCount | fwget.py:23-31 | with unique filenames, a kept entry's tuple is collected once and an unkept entry's not at all |
| Query.EmitLines | fwget.py:33-34 | the printing loop emits exactly one line per sorted tuple, in sorted order |
| Query.Search | fwget.py:21-35 | returns the matching tuples sorted stably by date, descending, and one formatted line per tuple in that order |
| Query.SearchMembers | fwget.py:23-32 | a tuple is in the `search` output exactly when a matching index entry produced it (soundness and completeness) |
| Query.SearchExactlyOnce | fwget.py:23-32 | with unique filenames, each matching entry appears exactly once in the output and each non-matching entry never |
| Query.SearchOrdered | fwget.py:32 | `search` output dates are descending under plain string comparison |
| Query.SearchTiesKeepIndexOrder | fwget.py:32 | `search` rows with equal dates keep the index's iteration order |
| Query.SearchEmptyQuery | fwget.py:24 | the empty query returns a permutation of the whole index |
| Query.SearchCaseInsensitive | fwget.py:24 | searching for a term or for its lower-cased form gives the same output |
| Query.Locate | fwget.py:40-50 | returns the tuples whose filename or description matches, sorted stably by date, descending, and prints `content_url + "/" + filename` for each in that order |
| Query.LocateMembers | fwget.py:42-47 | a tuple is in the `locate` output exactly when a matching index entry produced it |
| Query.LocateExactlyOnce | fwget.py:42-47 | with unique filenames, each matching entry is located exactly once |
| Query.LocateOrdered | fwget.py:47 | `locate` output dates are descending |
| Query.LocateTiesKeepIndexOrder | fwget.py:47 | `locate` rows with equal dates keep the index's iteration order |
| Query.LocateIgnoresTargetAndClass | fwget.py:42-46 | two indexes that differ only in target and deviceclass give the same `locate` output |
| Query.LocateEmptyQuery | fwget.py:43 | the empty query locates every entry |
| Query.List | fwget.py:87-96 | returns every `(filename, description)` sorted by filename, descending, with one 33-column line each |
| Query.ListExactlyOnce | fwget.py:89-92 | with unique filenames, `list` returns as many rows as there are entries and each entry's row once |
| Query.ListOrdered | fwget.py:92 | `list` output filenames are descending |
| Query.ListOrderIndependent | fwget.py:89-92 | two iteration orders of the same dictionary give the same `list` output |
| Cli.StripScheme | fwget.py:153 | removing `http://` never lengthens the URL and removes whole seven-character blocks only |
| Cli.StripSchemeFirst | fwget.py:153 | for the leftmost occurrence of `http://`, everything before it is kept, it is removed, and the scan resumes right after it |
| Cli.StripSchemeNoScheme | fwget.py:153 | a URL without `http://` is left unchanged |
| Cli.StripSchemeLeading | fwget.py:153 | a leading `http://` is dropped |
| Cli.StripSchemeSinglePass | fwget.py:153 | `replace` makes one pass: the scheme spliced into itself after `ht` (`hthttp://tp://`) becomes `http://`, which still holds the scheme |
| Cli.IndexUrlBelowContentUrl | fwget.py:155-156 | `index_url` is `content_url` followed by `/fwrepodata/fwrepo.json` |
| Cli.ContentUrlOfConfiguredUrl | fwget.py:153-156 | for a configured `http://<host/path>`, `content_url` is `http://<token>:null@<host/path>` |
| Cli.DispatchFirstMatch | fwget.py:196-215 | the first of `search`, `locate`, `download`, `list` found in the lower-cased `argv[1]` decides. `search` runs only with exactly three arguments and otherwise prints its usage. `locate` and `download` without a term raise `IndexError`. At most one argument prints the short usage. When none of the four words occurs, the full usage is printed |
| Cli.DispatchCaseInsensitive | fwget.py:199-211 | the command word is matched regardless of case |
| Cli.DispatchExtraArguments | fwget.py:199-212 | arguments after the term change nothing, except that `search` then prints its usage |
| Cli.Execute | fwget.py:196-215 | the run prints the usage line, the `search`, `locate` or `list` output, or issues the download of `content_url + "/" + file`, as the dispatch decides; it raises `IndexError` exactly when the term is missing |

## Left out

- Network access: `requests.get` for the index, for downloads and for token validation, with the status-code handling and `quit(1)` paths (fwget.py:55-82, 121-127, 158-185). A download appears only as the URL it would fetch and the line it prints first.
- `parse_config` (fwget.py:101-142): reading and writing `~/.fwget.conf` and prompting for a token. The token and URL are parameters.
- Reading the cached index with `json.load` (fwget.py:187-192). The index is given already parsed, with all four fields present.
- The program also loads the configuration and fetches the index before it looks at `argv`. That ordering is I/O and is not modelled.
- Printing: the printed lines are returned as strings. `print`'s trailing newline is not part of them.
- Case folding: Python's `lower()` folds all of Unicode. The model folds only the ASCII letters A-Z.
- Strings are sequences of Dafny `char`s, which are Unicode scalar values. A Python 3 `str` can also hold lone surrogates (for example from `json.load` of `"\ud800"`); such strings are not modelled.
- Python 2 behaviour (`raw_input`, byte strings) is not modelled.
- Timsort itself is not modelled: `sorted` is modelled by a stable insertion sort. `Sorting.SortedUnique` shows that every stable descending sort gives the same result.
