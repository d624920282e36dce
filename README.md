# CodeRunner prototypes and the `cheat` copy detector, modelled in Dafny

This project models two Python code bases from a CodeRunner teaching setup.

**The `cheat` copy detector.** It reads a Moodle CSV export of student answers. It reduces each answer to a *canonical form*: comments stripped, non-keyword identifiers optionally masked as `xxx`, whitespace deleted. It then prints clusters of students whose canonical forms coincide, and an e-mail list of everyone involved.
- The package version (`cheat/src/cheat/`) is configured by an options dictionary.
- The older single-module version (`cheat/src/dumbcopiers.py`) is configured by globals.

**The CodeRunner answer-assembly helpers** (`prototypes/src/`).
- `_remove_cruft` rewrites a student answer with a chain of `str.replace` calls, so that all code can share one file.
- `_add_cruft` wraps the answer in a fixed template.
- The `check_for_*` functions decide whether an answer meets the exercise's requirements. They use substring counts and a few fixed regular-expression shapes, and raise `CodeOutOfSpecException` when it does not.

## Modules

| file | module | models |
|---|---|---|
| `py_text.dfy` | `PyText` | The Python `str` operations the code relies on: `find`, `count`, `replace` with a count, `split`, `join`. Also the ASCII character classes of `\w` and `\s`. |
| `cheat_tables.dfy` | `CheatTables` | The language tables and column headers of `cheat/src/cheat/__init__.py`. |
| `canonical.dfy` | `Canonical` | The four `re.sub` passes of `clean`, written as scanners. |
| `clustering.dfy` | `Clustering` | The part of `main` that both detector versions share. This is the row loop, the sort, the leader/member scan, `known`, and the e-mail list. The loops are methods proved against specification functions. |
| `dumbcopiers.dfy` | `Dumbcopiers` | The package's `setup`, `clean` and `main`. |
| `legacy_dumbcopiers.dfy` | `LegacyDumbcopiers` | The older module, and its agreement with the package. |
| `java_patterns.dfy` | `JavaPatterns` | The regular-expression shapes of the Java checkers, and the checker verdict. |
| `java_code_checkr.dfy` | `JavaCodeCheckr` | `prototypes/src/java_code_checkr.py`. |
| `java_code_checker.dfy` | `JavaCodeChecker` | `prototypes/src/java_code_checker.py`. |
| `java_code_findbugs.dfy` | `JavaCodeFindbugs` | `prototypes/src/java_code_findbugs.py`. |
| `python_code_checkr.dfy` | `PythonCodeCheckr` | `prototypes/src/python_code_checkr.py`. |

How the model represents Python behaviour:
- A checker returns a `Verdict`. `Passed(printed)` carries the line it prints, if any. `OutOfSpec(message)` carries the exception text.
- A failing dictionary lookup is the `KeyError(key)` case of a `Result`.
- A Python `None` or empty string is `Option<string>`, tested for truthiness as the source does.

Where the code and its comments or documentation disagree, the model follows the code:
- A student id is the e-mail text before the first `@`, used as it is, with no lowercasing (`cheat/src/cheat/dumbcopiers.py:75`).
- Masked identifiers become `xxx` (`cheat/src/cheat/dumbcopiers.py:53`, `cheat/src/dumbcopiers.py:77`). The comment next to `IGNORE_IDENTIFIERS` says `###` (`cheat/src/cheat/__init__.py:2`, `cheat/src/dumbcopiers.py:22`).
- A student the scan has already claimed as a member is skipped only as a member, not as a leader (`cheat/src/cheat/dumbcopiers.py:87-90`). Such a student can still never lead a non-empty cluster, because every holder of its form was claimed together with it (`Clustering.ClaimedNeverLeads`).

## Model

| member | source | states |
|---|---|---|
| CheatTables.TablesShareLanguages | cheat/src/cheat/__init__.py:6-42 | The extension, one-line comment, block comment and keyword tables are all keyed by exactly java, python, c and matlab. |
| CheatTables.MarkersAreLineLocal | cheat/src/cheat/__init__.py:13-18 | The one-line marker is `#` for python, `%` for matlab and `//` otherwise. It is non-empty and has no newline. |
| CheatTables.BlocksAreValid | cheat/src/cheat/__init__.py:20-25 | Every block-comment alternative of every language has a non-empty opener and closer. |
| CheatTables.JavaKeywordsAreIdentifiers | cheat/src/cheat/__init__.py:29-32 | Every Java keyword is an ASCII identifier. |
| CheatTables.PythonKeywordsAreIdentifiers | cheat/src/cheat/__init__.py:33-35 | Every Python keyword is an ASCII identifier. |
| CheatTables.CKeywordsAreIdentifiers | cheat/src/cheat/__init__.py:36-39 | Every C keyword is an ASCII identifier. |
| CheatTables.MatlabKeywordsAreIdentifiers | cheat/src/cheat/__init__.py:40-41 | Every Matlab keyword is an ASCII identifier. |
| CheatTables.KeywordsAreIdentifiers | cheat/src/cheat/__init__.py:28-42 | For every language, every keyword matches `[A-Za-z_][A-Za-z0-9_]*`, so whole-token masking can recognise it. |
| CheatTables.PlaceholderIsNoKeyword | cheat/src/cheat/__init__.py:28-42 | `xxx` is the keyword of no language. |
| CheatTables.JavaSecondAlternativeRedundant | cheat/src/cheat/__init__.py:21 | At any position, Java's `/\*\*.*?\*/` alternative never decides a match: the first alternative alone matches the same length. |
| CheatTables.JavaBlockStripSimplifies | cheat/src/cheat/__init__.py:21 | Java block-comment removal gives the same text with or without the second alternative. |
| CheatTables.PythonDuplicateHarmless | cheat/src/cheat/__init__.py:33-35 | The python list repeats `and` at positions 6 and 13. Dropping the repeat changes neither keyword membership nor masking of any text. |
| CheatTables.HeadersShareKeys | cheat/src/cheat/__init__.py:44-57 | `english` and `french` define the same four header keys: response, email, first_name, surname. |
| Canonical.LineEnd | cheat/src/cheat/dumbcopiers.py:50 | The index of the first newline at or after `k`, or the end of the text. No newline lies before it. |
| Canonical.StripLineComments | cheat/src/cheat/dumbcopiers.py:50 | Deleting one-line comments never lengthens the text. |
| Canonical.StripLineCommentsNoMarker | cheat/src/cheat/dumbcopiers.py:50 | Text without the marker is unchanged. |
| Canonical.CutLine | cheat/src/cheat/dumbcopiers.py:50 | A line is cut to a prefix of itself, and a line without the marker is kept whole. |
| Canonical.CutLines | cheat/src/cheat/dumbcopiers.py:50 | Cutting lines works line by line. |
| Canonical.StripAtMarker | cheat/src/cheat/dumbcopiers.py:50 | A comment at the front is deleted up to, but not including, the end of its line. |
| Canonical.StripFirstLine | cheat/src/cheat/dumbcopiers.py:50 | The first line is cut at its marker, and the rest of the text is processed on its own. |
| Canonical.StripLineCommentsByLines | cheat/src/cheat/dumbcopiers.py:50 | Reference definition: deleting `marker[^\n]*` equals splitting at newlines, cutting each line at its first marker, and joining again. |
| Canonical.OneLineCut | cheat/src/cheat/dumbcopiers.py:50 | On a single line, deleting `marker[^\n]*` keeps exactly the text before the first marker. |
| Canonical.BlockMatchLength | cheat/src/cheat/dumbcopiers.py:51 | A block match is non-empty, fits the text, and starts with some alternative's opener. |
| Canonical.StripBlockComments | cheat/src/cheat/dumbcopiers.py:51 | Deleting block comments never lengthens the text. |
| Canonical.StripBlockCommentsNoOpener | cheat/src/cheat/dumbcopiers.py:51 | Text in which no opener occurs is unchanged. |
| Canonical.BlockAtFront | cheat/src/cheat/dumbcopiers.py:51 | A comment at the front is matched up to the first closer after its opener (lazy `.*?`, across newlines): when that closer first occurs right after `body`, the match is opener, body and closer. |
| Canonical.CommentAtFrontRemoved | cheat/src/cheat/dumbcopiers.py:51 | A leading comment whose body holds no closer is removed whole, and the rest is processed on its own. |
| Canonical.StripBlockCommentsNoCloser | cheat/src/cheat/dumbcopiers.py:51 | Without any closer, no block comment matches and the text is unchanged. |
| Canonical.MarkerHidesCloser | cheat/src/cheat/dumbcopiers.py:50-51 | On one line, a one-line marker before every closer makes the block pass a no-op after the line pass: the opener survives. |
| Canonical.WordRunLength | cheat/src/cheat/dumbcopiers.py:53 | The length of the maximal run of word characters at the front. |
| Canonical.MaskToken | cheat/src/cheat/dumbcopiers.py:37-53 | A whole token becomes `xxx` exactly when it is an identifier and not a keyword. Otherwise it is kept. |
| Canonical.MaskTokenThenRest | cheat/src/cheat/dumbcopiers.py:53 | A token followed by a boundary is masked on its own. |
| Canonical.MaskWholeToken | cheat/src/cheat/dumbcopiers.py:37-53 | A keyword token is kept and any other identifier token becomes `xxx`, by whole-token comparison. So `input` is kept and `format` is masked. |
| Canonical.MaskedStartsAtBoundary | cheat/src/cheat/dumbcopiers.py:53 | Masking text that starts on a boundary gives text that starts on a boundary. |
| Canonical.MaskSameMembership | cheat/src/cheat/dumbcopiers.py:32-37 | Masking depends only on which words are keywords, not on list order or repeats. |
| Canonical.MaskConcat | cheat/src/cheat/dumbcopiers.py:53 | Masking works piece by piece across a non-word character. |
| Canonical.MaskFirstToken | cheat/src/cheat/dumbcopiers.py:53 | In a text that ends with a non-word character, the first token is masked the same way whatever text follows. |
| Canonical.MaskRenameInvariant | cheat/src/cheat/dumbcopiers.py:53 | Renaming one non-keyword identifier to another does not change the masked text. |
| Canonical.Punctuation | cheat/src/cheat/dumbcopiers.py:53 | The non-word characters of a text, in order. |
| Canonical.PunctuationConcat | cheat/src/cheat/dumbcopiers.py:53 | Punctuation distributes over concatenation. |
| Canonical.MaskKeepsPunctuation | cheat/src/cheat/dumbcopiers.py:53 | Masking keeps every non-word character, in order. |
| Canonical.MaskIdempotent | cheat/src/cheat/dumbcopiers.py:53 | When `xxx` is no keyword, masking twice equals masking once. |
| Canonical.MaskNoIdentifierStart | cheat/src/cheat/dumbcopiers.py:53 | Text in which no character can start an identifier is not changed by masking. |
| Canonical.MaskBeforeBoundary | cheat/src/cheat/dumbcopiers.py:53 | Masking splits over any concatenation whose second part starts at a token boundary. |
| Canonical.DeleteBlanks | cheat/src/cheat/dumbcopiers.py:54 | The result has no space, tab or newline, every other character keeps its number of occurrences, and the result is a subsequence of the input: the kept characters stay in their order. |
| Canonical.DeleteBlanksNoBlanks | cheat/src/cheat/dumbcopiers.py:54 | Text without blanks is unchanged. |
| Canonical.DeleteBlanksIdempotent | cheat/src/cheat/dumbcopiers.py:54 | Deleting blanks twice equals deleting them once. |
| Canonical.DeleteBlanksConcat | cheat/src/cheat/dumbcopiers.py:54 | Deleting blanks distributes over concatenation. |
| Dumbcopiers.Setup | cheat/src/cheat/dumbcopiers.py:30-39 | Raises `KeyError(language)` exactly when the language is not one of the four. Otherwise the profile holds that language's extension, comment patterns and keywords. |
| Dumbcopiers.Clean | cheat/src/cheat/dumbcopiers.py:43-55 | With `exact_copies_only` the text is returned unchanged. Otherwise the result has no space, tab or newline. |
| Dumbcopiers.CleanCommentFree | cheat/src/cheat/dumbcopiers.py:49-55 | On text without comments, `clean` is masking (when asked) followed by deleting blanks. |
| Dumbcopiers.CleanIgnoresRenaming | cheat/src/cheat/dumbcopiers.py:52-54 | With masking on, two comment-free answers that differ in one non-keyword identifier get the same canonical form. |
| Dumbcopiers.CleanIgnoresBlanks | cheat/src/cheat/dumbcopiers.py:54 | Without masking, comment-free answers that differ only in blanks get the same canonical form. |
| Dumbcopiers.JavaMarkerInBlockComment | cheat/src/cheat/dumbcopiers.py:49-54 | For Java, a `//` inside a one-line `/* ... */` deletes the `*/` before the block pass runs, so `/*` and the text before the `//` survive into the canonical form. |
| Dumbcopiers.MatlabBlockCommentCut | cheat/src/cheat/dumbcopiers.py:49-54 | For MATLAB, the `%` pass empties the `%{` line and cuts the `%` off `}%` first, so a `%{ ... }%` block is cleaned like its body between a newline and a lone `}`. |
| Dumbcopiers.ColumnsFor | cheat/src/cheat/dumbcopiers.py:61-65 | Raises `KeyError` exactly for an unknown Moodle language. Otherwise it gives that language's four column headers, with the question number after the response header. |
| Dumbcopiers.FindCopies | cheat/src/cheat/dumbcopiers.py:57-107 | `main` without I/O. It fails with `KeyError` on an unknown code language (checked first) or Moodle language. Otherwise its report is the specified one for the package's `clean` and `@etu.unice.fr`. |
| Dumbcopiers.DomainRoundTrip | cheat/src/cheat/dumbcopiers.py:105 | An address built from an id gives the id back. |
| Clustering.StudentId | cheat/src/cheat/dumbcopiers.py:75 | The id is the longest `@`-free prefix of the address, with no lowercasing. |
| Clustering.NamesKeys | cheat/src/cheat/dumbcopiers.py:76 | `names` has one key per distinct id. |
| Clustering.ProgsKeys | cheat/src/cheat/dumbcopiers.py:80 | `progs` has one key per distinct id. |
| Clustering.IdsInOrderKeys | cheat/src/cheat/dumbcopiers.py:82 | `list(progs)` lists every id exactly once. |
| Clustering.LastRowWins | cheat/src/cheat/dumbcopiers.py:74-80 | For each id, the last row with that id decides its name and canonical form. |
| Clustering.Ingest | cheat/src/cheat/dumbcopiers.py:74-80 | The row loop builds exactly the specified `names`, `progs` and key order. |
| Clustering.ProgsOfAgree | cheat/src/cheat/dumbcopiers.py:79-80 | Canonicalisers that agree on every text give the same `progs`. |
| Clustering.LessTransitive | cheat/src/cheat/dumbcopiers.py:83 | Python's string order is transitive. |
| Clustering.LessTotal | cheat/src/cheat/dumbcopiers.py:83 | Python's string order is total. |
| Clustering.Insert | cheat/src/cheat/dumbcopiers.py:83 | Insertion keeps the list strictly ascending and adds exactly the new id. |
| Clustering.SortIds | cheat/src/cheat/dumbcopiers.py:82-83 | `studs.sort()` gives an ascending permutation of the ids. |
| Clustering.SortedUnique | cheat/src/cheat/dumbcopiers.py:83 | A strictly ascending list is determined by its elements, so the sorted list does not depend on row order. |
| Clustering.Holders | cheat/src/cheat/dumbcopiers.py:89-90 | The ids in a range whose form equals a given one, in list order. |
| Clustering.HoldersElems | cheat/src/cheat/dumbcopiers.py:89-90 | An id is a holder exactly when it is in the range and holds the form. |
| Clustering.HoldersSorted | cheat/src/cheat/dumbcopiers.py:83-91 | Holders taken from a sorted list are sorted, and come after every earlier id. |
| Clustering.ClaimedStepUnchanged | cheat/src/cheat/dumbcopiers.py:87-93 | An iteration whose form is `'-'` or was seen before adds nobody to `known`. |
| Clustering.ClaimedStepFirst | cheat/src/cheat/dumbcopiers.py:88-93 | The first holder of a form adds its whole group to `known`, if the group has more than one member. |
| Clustering.FirstHolderUnclaimed | cheat/src/cheat/dumbcopiers.py:90 | A later holder of a first-seen form is not yet in `known`. |
| Clustering.RepeatClaimed | cheat/src/cheat/dumbcopiers.py:90 | Every holder of a form seen before is already in `known`. |
| Clustering.CollectCopiers | cheat/src/cheat/dumbcopiers.py:88-93 | The inner loop collects exactly the later holders of a first-seen form. It adds them and the leader to `known`, and adds nobody when it finds no copier. |
| Clustering.Scan | cheat/src/cheat/dumbcopiers.py:86-98 | The outer loop prints exactly the specified clusters and leaves `known` as the specified collaborators. |
| Clustering.LeadsAtClass | cheat/src/cheat/dumbcopiers.py:86-94 | A leader followed by its copiers is exactly the list of holders of its form. |
| Clustering.ClusterIsWholeGroup | cheat/src/cheat/dumbcopiers.py:86-94 | Every printed cluster is the whole group of holders of some non-`'-'` form, and has at least one member. |
| Clustering.EveryGroupClustered | cheat/src/cheat/dumbcopiers.py:86-94 | Every group of two or more holders of a non-`'-'` form is printed as a cluster. |
| Clustering.OneClusterPerStudent | cheat/src/cheat/dumbcopiers.py:86-94 | No student appears in two printed clusters. |
| Clustering.ClaimedNeverLeads | cheat/src/cheat/dumbcopiers.py:87-90 | No leader of a printed cluster is a member of another. Members within one cluster are distinct. |
| Clustering.LeaderIsSmallest | cheat/src/cheat/dumbcopiers.py:83-91 | Each cluster is ascending: the leader is the smallest id of its group, and the members follow in order. |
| Clustering.SentinelNeverClustered | cheat/src/cheat/dumbcopiers.py:87 | Nobody whose form is `'-'` is ever in a cluster. |
| Clustering.KnownIsClustered | cheat/src/cheat/dumbcopiers.py:84-93 | After the scan, `known` is exactly the set of students in printed clusters. |
| Clustering.SortedIds | cheat/src/cheat/dumbcopiers.py:82-83 | The sorted id list is strictly ascending and holds exactly the distinct ids. |
| Clustering.SortedIdsHaveForms | cheat/src/cheat/dumbcopiers.py:82-87 | Every sorted id has a canonical form, so `progs[stud]` never fails. |
| Clustering.Keep | cheat/src/cheat/dumbcopiers.py:103 | Filtering keeps exactly the listed elements of the set, and keeps ascending order. |
| Clustering.SortedList | cheat/src/cheat/dumbcopiers.py:103 | `sorted(known)` is strictly ascending with exactly the elements of `known`. |
| Clustering.EmailList | cheat/src/cheat/dumbcopiers.py:102-105 | The loop appends `id + domain` for each id, in order. |
| Clustering.IdOfAddress | cheat/src/cheat/dumbcopiers.py:75 | For an `@`-free id and a domain starting with `@`, the id is recovered from the address. |
| Clustering.EmailListSplits | cheat/src/cheat/dumbcopiers.py:107 | The comma-joined e-mail list splits back into the addresses when neither the ids nor the domain hold a comma. |
| Clustering.SortedForms | cheat/src/cheat/dumbcopiers.py:79-87 | The canonical form of each sorted id, position by position. |
| Clustering.EmailListNamesCollaborators | cheat/src/cheat/dumbcopiers.py:102-107 | The report's e-mail list is empty without collaborators; otherwise it splits at commas into one address per collaborator, in order, each being the collaborator's id followed by the domain, whose id is the collaborator again. |
| Clustering.AddressList | cheat/src/cheat/dumbcopiers.py:105-107 | The same for any listed ids taken from the rows: the joined list of id-plus-domain addresses splits back into those addresses and their ids. |
| Clustering.Collate | cheat/src/cheat/dumbcopiers.py:74-107 | The rows loop, sort, scan and e-mail loop give exactly the specified report. |
| Clustering.EqualFormsClustered | cheat/src/cheat/dumbcopiers.py:82-94 | Two students with equal canonical forms other than `'-'` are printed in one cluster. |
| Clustering.ClusterSharesForm | cheat/src/cheat/dumbcopiers.py:87-90 | Everyone in a printed cluster has the leader's form, which is not `'-'`. |
| Clustering.KeptCollaborators | cheat/src/cheat/dumbcopiers.py:103 | On a sorted list, the listed collaborators are, ascending, exactly the students of printed clusters. |
| Clustering.CollaboratorsListed | cheat/src/cheat/dumbcopiers.py:101-105 | The listed collaborators are, ascending, exactly the students of printed clusters. |
| LegacyDumbcopiers.TablesAgreeWithPackage | cheat/src/dumbcopiers.py:28-57 | For python, c and matlab, each table equals the package's. |
| LegacyDumbcopiers.Profiled | cheat/src/dumbcopiers.py:59-63 | The import-time lookups raise `KeyError(language)` exactly outside python, c and matlab. Otherwise the profile is the package's `setup` for that language. |
| LegacyDumbcopiers.ShippedLanguageProfiled | cheat/src/dumbcopiers.py:59-63 | The shipped `python` profiles. `java`, which the package supports, raises `KeyError` here. |
| LegacyDumbcopiers.Clean | cheat/src/dumbcopiers.py:67-79 | With `EXACT_COPIES_ONLY` the text is returned unchanged. Otherwise the result has no space, tab or newline. |
| LegacyDumbcopiers.CleanAgreesWithPackage | cheat/src/dumbcopiers.py:67-79 | For the same profile and options, `clean` equals the package's. |
| LegacyDumbcopiers.ColumnsAreEnglish | cheat/src/dumbcopiers.py:92-94 | The fixed column names are the package's English headers for question 5. |
| LegacyDumbcopiers.Run | cheat/src/dumbcopiers.py:82-124 | `main` without I/O. It raises `KeyError` exactly for an unprofiled language. Otherwise its report is the specified one with `@uclive.ac.nz`. |
| LegacyDumbcopiers.SameReportAsPackage | cheat/src/dumbcopiers.py:99-124 | The same clusters and collaborators as the package for the same rows and options. Only the e-mail domain differs. |
| PyText.Find | prototypes/src/java_code_checkr.py:319 | `find`: the leftmost occurrence, and `None` exactly when the pattern does not occur. |
| PyText.Count | prototypes/src/java_code_checkr.py:226-228 | `count` with a non-empty pattern finds at most `len(s) / len(p)` occurrences: they do not overlap. |
| PyText.CountPositiveIffContains | prototypes/src/java_code_checkr.py:319-330 | `count` is positive exactly when the pattern occurs. |
| PyText.ReplaceAbsent | prototypes/src/java_code_checkr.py:65-74 | `replace` leaves text without the pattern unchanged. |
| PyText.ReplaceUpTo | prototypes/src/python_code_checkr.py:63-69 | `replace` with a count rewrites `min(count, s.count(old))` occurrences (all of them for a negative count), each changing the length by `len(new) - len(old)`. |
| PyText.Replace | prototypes/src/java_code_checkr.py:65-74 | `replace` without a count rewrites every occurrence `count` finds: the length changes by `s.count(old) * (len(new) - len(old))`. |
| PyText.ReplaceSelf | prototypes/src/python_code_checkr.py:67-69 | Replacing a string by itself changes nothing, whatever the count. |
| PyText.Split | cheat/src/cheat/dumbcopiers.py:75 | `split` gives at least one part. |
| PyText.SplitPartsFree | cheat/src/cheat/dumbcopiers.py:75 | No part that `split` gives holds the separator. |
| PyText.JoinSplit | cheat/src/cheat/dumbcopiers.py:107 | Splitting then joining with the same separator gives the text back. |
| PyText.Join | cheat/src/cheat/dumbcopiers.py:107 | The joined text is as long as the parts together plus one separator between each two parts. |
| PyText.SplitJoin | cheat/src/cheat/dumbcopiers.py:107 | Joining separator-free parts with a one-character separator and splitting again gives the parts back. |
| PyText.ReplaceOnce | prototypes/src/java_code_checkr.py:65-74 | When the pattern first occurs right after a prefix, and nowhere after, exactly that occurrence is replaced. |
| JavaPatterns.SpaceRunEnd | prototypes/src/java_code_checkr.py:261-265 | The end of the longest run of `\s` from a position. |
| JavaPatterns.LastIndex | prototypes/src/java_code_checkr.py:261-265 | The last position of a character in a range, or none. |
| JavaPatterns.StaticGroupAt | prototypes/src/java_code_checkr.py:261-265 | A match of `static\s+(.*)\(` at a position starts with `static`. Its group stays on one line. |
| JavaPatterns.FirstStaticMatch | prototypes/src/java_code_checkr.py:266 | `search` finds the leftmost match, and `None` exactly when nothing matches. |
| JavaPatterns.NoStaticNoMatch | prototypes/src/java_code_checkr.py:261-266 | Text without `static` has no match. |
| JavaPatterns.ExtendsFound | prototypes/src/java_code_checker.py:65-71 | A match needs `class`, `extends`, the subclass and the superclass to occur in the text. |
| JavaPatterns.EnumFound | prototypes/src/java_code_checker.py:85-90 | A match needs `enum` and the name to occur in the text. |
| JavaPatterns.SwitchCaseFound | prototypes/src/java_code_checker.py:104-110 | A match needs `switch`, `case` and the constant followed by `:` to occur in the text. |
| JavaPatterns.ExtendsSuperPrefix | prototypes/src/java_code_checker.py:65-71 | The superclass is matched as a prefix: a match for `SUP + more` is a match for `SUP`. |
| JavaPatterns.ExtendsDeclared | prototypes/src/java_code_checker.py:65-71 | `class SUB extends SUP`, single-spaced, matches wherever it stands. |
| JavaPatterns.ExtendsNeedsClass | prototypes/src/java_code_checker.py:65-71 | Without the word `class` there is no match. |
| JavaPatterns.EnumPrefix | prototypes/src/java_code_checker.py:85-90 | The enum name is matched as a prefix. |
| JavaPatterns.EnumDeclared | prototypes/src/java_code_checker.py:85-90 | `enum NAME`, single-spaced, matches wherever it stands. |
| JavaPatterns.EnumNeedsKeyword | prototypes/src/java_code_checker.py:85-90 | Without the word `enum` there is no match. |
| JavaPatterns.SwitchCaseDeclared | prototypes/src/java_code_checker.py:104-110 | `switch`, then any text including newlines, then `case CONST:` matches. |
| JavaPatterns.SwitchCaseNeedsSwitch | prototypes/src/java_code_checker.py:104-110 | Without `switch` there is no match. |
| JavaCodeCheckr.RemoveCruft | prototypes/src/java_code_checkr.py:60-74 | Text containing none of the nine search strings is returned unchanged. |
| JavaCodeCheckr.PublicClassRewritten | prototypes/src/java_code_checkr.py:65-74 | `public class X` becomes `class X`. |
| JavaCodeCheckr.FinalClassKept | prototypes/src/java_code_checkr.py:66-74 | The first rule leaves `public final class X` alone, and the last three leave `final class X` alone. |
| JavaCodeCheckr.PublicFinalClassRewritten | prototypes/src/java_code_checkr.py:65-74 | `public final class X` becomes `final class X`. |
| JavaCodeCheckr.AbstractPublicFirstRule | prototypes/src/java_code_checkr.py:66 | The first rule already turns `abstract public class X` into `abstract class X`. |
| JavaCodeCheckr.AbstractClassKept | prototypes/src/java_code_checkr.py:72-74 | The last three rules leave `abstract class X` alone. |
| JavaCodeCheckr.AbstractPublicClassRewritten | prototypes/src/java_code_checkr.py:65-74 | `abstract public class X` becomes `abstract class X`. |
| JavaCodeCheckr.PublicInterfaceRewritten | prototypes/src/java_code_checkr.py:65-74 | `public interface I` becomes `interface I`. |
| JavaCodeCheckr.PublicEnumRewritten | prototypes/src/java_code_checkr.py:65-74 | `public enum E` becomes `enum E`. |
| JavaCodeCheckr.PackageCommentedOut | prototypes/src/java_code_checkr.py:65-74 | `package P` becomes `// package P`. |
| JavaCodeCheckr.ImportCommentedOut | prototypes/src/java_code_checkr.py:65-74 | `import M` becomes `// import M`, and `// import M` becomes `// // import M`. |
| JavaCodeCheckr.RemoveCruftNotIdempotent | prototypes/src/java_code_checkr.py:73-74 | A second pass changes an import again, so `_remove_cruft` is not idempotent. |
| JavaCodeCheckr.StaticImport | prototypes/src/java_code_checkr.py:84-85 | The static-import line is non-empty exactly when `import_static` is truthy. |
| JavaCodeCheckr.AddCruft | prototypes/src/java_code_checkr.py:77-105 | The output starts with `\npackage foobar;\n` and ends with the answer and a newline. |
| JavaCodeCheckr.StaticImportShown | prototypes/src/java_code_checkr.py:84-105 | A truthy `import_static` puts `import static foobar.<X>.*;` into the output. |
| JavaCodeCheckr.HeaderHasNoStaticImport | prototypes/src/java_code_checkr.py:86-102 | The fixed template holds no `import static `. |
| JavaCodeCheckr.StaticImportOnlyWhenGiven | prototypes/src/java_code_checkr.py:84-105 | Without a truthy `import_static`, and none in the answer, the output has no static import. |
| JavaCodeCheckr.AssembledPublicClass | prototypes/src/java_code_checkr.py:108-111 | Assembling `public class X` puts `class X`, without `public`, into the template; with the contract of `AddCruft` the file starts with the package line and ends with `class X` and a newline. |
| JavaCodeCheckr.AssembleStudentAnswer | prototypes/src/java_code_checkr.py:108-111 | The assembled file starts with the package line; an answer containing none of the nine search strings is wrapped as it is. |
| JavaCodeCheckr.CheckForAuthor | prototypes/src/java_code_checkr.py:218-236 | Raises exactly when count(`class`) > count(`@author`), or a truthy existing author occurs at least count(`@author`) times. Always raises without `@author`. Otherwise prints `Additional author added`. |
| JavaCodeCheckr.CheckForExtends | prototypes/src/java_code_checkr.py:239-257 | Raises with the extends message when the pattern does not match. Otherwise prints `SUB extends SUP`. |
| JavaCodeCheckr.DeclaredExtendsPasses | prototypes/src/java_code_checkr.py:244-257 | A single-spaced extends declaration anywhere passes. |
| JavaCodeCheckr.ExtendsCheckSuperPrefix | prototypes/src/java_code_checkr.py:244-257 | Passing for `SUP + more` passes for `SUP`, so `extends Shapes` satisfies `Shape`. |
| JavaCodeCheckr.ExtendsCheckNeedsClass | prototypes/src/java_code_checkr.py:244-257 | An answer without `class` fails. |
| JavaCodeCheckr.CheckForEnum | prototypes/src/java_code_checkr.py:276-293 | Raises with the enum message when `enum\s+NAME` does not match. Otherwise prints `Specified enum declared`. |
| JavaCodeCheckr.DeclaredEnumPasses | prototypes/src/java_code_checkr.py:281-293 | `enum NAME`, or a longer name starting with NAME, passes. |
| JavaCodeCheckr.EnumCheckNeedsKeyword | prototypes/src/java_code_checkr.py:281-293 | An answer without `enum` fails. |
| JavaCodeCheckr.CheckForEnumInSwitch | prototypes/src/java_code_checkr.py:296-315 | Raises with the case message unless a `switch` is followed, across lines, by `case CONST:`. Otherwise prints `Switch uses enum constants`. |
| JavaCodeCheckr.SwitchCasePasses | prototypes/src/java_code_checkr.py:302-315 | A `switch` with `case CONST:` anywhere after it passes. |
| JavaCodeCheckr.SwitchCheckNeedsSwitch | prototypes/src/java_code_checkr.py:302-315 | An answer without `switch` fails. |
| JavaCodeCheckr.CheckForReference | prototypes/src/java_code_checkr.py:318-326 | Raises exactly when the name does not occur. Otherwise prints `Ok reference to NAME`. |
| JavaCodeCheckr.CheckForNoReference | prototypes/src/java_code_checkr.py:329-337 | Raises exactly when the name occurs. Otherwise prints `No reference to NAME`. |
| JavaCodeCheckr.ReferenceChecksComplementary | prototypes/src/java_code_checkr.py:318-337 | For any answer and name, exactly one of the two reference checks raises. |
| JavaCodeCheckr.CheckForInterface | prototypes/src/java_code_checkr.py:340-348 | Passes exactly when `interface NAME` occurs. |
| JavaCodeCheckr.DeclaredInterfacePasses | prototypes/src/java_code_checkr.py:340-348 | A public interface declaration passes, before and after `_remove_cruft`. |
| JavaCodeCheckr.CheckForFunctionalStyleLambdas | prototypes/src/java_code_checkr.py:361-368 | Passes exactly when `->` occurs. |
| JavaCodeCheckr.CheckForNoProceduralStyleLoops | prototypes/src/java_code_checkr.py:351-358 | As written: raises exactly when `for ` occurs, with the loops message; otherwise prints `No procedural style loops`. |
| JavaCodeCheckr.CheckForNoLoopsIntended | prototypes/src/java_code_checkr.py:351-358 | As intended: raises exactly when `for ` or `while ` occurs. It raises whenever the as-written check does. |
| JavaCodeCheckr.WhileLoopSlipsThrough | prototypes/src/java_code_checkr.py:352 | `while (x) {}` passes the as-written check and fails the intended one. |
| JavaCodeCheckr.CheckForStaticMethod | prototypes/src/java_code_checkr.py:260-273 | As written: an answer without `static` passes. Raising gives the static-method message. |
| JavaCodeCheckr.FirstNonMainStatic | prototypes/src/java_code_checkr.py:261-266 | The leftmost match whose group does not name `main`, or none exactly when every match names `main`. |
| JavaCodeCheckr.CheckForStaticMethodIntended | prototypes/src/java_code_checkr.py:260-273 | As intended: passes exactly when every match names `main`. It raises whenever the as-written check does. |
| JavaCodeCheckr.StaticGroupOf | prototypes/src/java_code_checkr.py:261-265 | For `static G(L` on one line, the group is `G`. |
| JavaCodeCheckr.FirstStaticDecides | prototypes/src/java_code_checkr.py:266-273 | When no match starts before a static method declaration, the check raises exactly when that declaration's group lacks `main`. |
| JavaCodeCheckr.FirstStaticDeclarationDecides | prototypes/src/java_code_checkr.py:266-273 | The same when no `static` at all comes before the declaration. |
| JavaCodeCheckr.StaticFieldNoMatch | prototypes/src/java_code_checkr.py:261-265 | A static field, with no `(` on its line, is no match. |
| JavaCodeCheckr.FieldThenDeclaration | prototypes/src/java_code_checkr.py:260-273 | A static field line, then lines without `static`, then a static method declaration: the check raises exactly when the declaration's group lacks `main`. |
| JavaCodeCheckr.FieldAndMainPasses | prototypes/test/java_code_checkr_test.py:130-146 | The class with a static field, an instance method and `public static void main(String... args)` passes. |
| JavaCodeCheckr.MainFirstPasses | prototypes/src/java_code_checkr.py:266-273 | `static void main(...)` followed by a static helper passes the as-written check. |
| JavaCodeCheckr.HelperMatches | prototypes/src/java_code_checkr.py:261-265 | The helper after `main` is itself a match whose group lacks `main`. |
| JavaCodeCheckr.HelperCaughtByIntended | prototypes/src/java_code_checkr.py:260-273 | The intended check raises on `main` followed by a static helper. |
| JavaCodeCheckr.StaticHelperSlipsThrough | prototypes/src/java_code_checkr.py:266-273 | The same answer passes the as-written check and fails the intended one. |
| JavaCodeChecker.CheckForAuthor | prototypes/src/java_code_checker.py:35-57 | Raises under exactly java_code_checkr's condition, with the indented message. Passing returns `None` without printing. |
| JavaCodeChecker.NoAuthorRaises | prototypes/src/java_code_checker.py:47-55 | Without `@author` the check always raises. |
| JavaCodeChecker.CheckForExtends | prototypes/src/java_code_checker.py:60-76 | Raises when java_code_checkr's does, with the indented message. Passing prints nothing. |
| JavaCodeChecker.DeclaredExtendsPasses | prototypes/src/java_code_checker.py:65-76 | A declaration whose superclass extends the required name passes. |
| JavaCodeChecker.ExtendsNeedsClassKeyword | prototypes/src/java_code_checker.py:65-76 | Without `class` the check raises. |
| JavaCodeChecker.CheckForEnum | prototypes/src/java_code_checker.py:79-95 | Raises when java_code_checkr's does, with the indented message. Passing prints nothing. |
| JavaCodeChecker.EnumCheckDecided | prototypes/src/java_code_checker.py:85-95 | A declaration of the enum, or one whose name extends it, passes. An answer without `enum` raises. |
| JavaCodeChecker.CheckForEnumInSwitch | prototypes/src/java_code_checker.py:98-115 | Raises when java_code_checkr's does, with the indented message. Passing prints nothing. |
| JavaCodeChecker.SwitchCheckDecided | prototypes/src/java_code_checker.py:104-115 | `switch ... case CONST:` passes. An answer without `switch` raises. |
| JavaCodeFindbugs.RemoveCruft | prototypes/src/java_code_findbugs.py:39-51 | Text containing none of the seven search strings is returned unchanged. |
| JavaCodeFindbugs.PublicClassRewritten | prototypes/src/java_code_findbugs.py:44-51 | `public class X` becomes `class X`. |
| JavaCodeFindbugs.PublicFinalClassKept | prototypes/src/java_code_findbugs.py:44-51 | With no `final` rule, `public final class X` is left unchanged. |
| JavaCodeFindbugs.FinalClassDiffers | prototypes/src/java_code_findbugs.py:44-51 | On `public final class X` this version and java_code_checkr's give different results. |
| JavaCodeFindbugs.PackageCommentedOut | prototypes/src/java_code_findbugs.py:44-51 | `package P` becomes `// package P`. |
| JavaCodeFindbugs.ImportCommentedOut | prototypes/src/java_code_findbugs.py:44-51 | `import M` becomes `// import M`. |
| JavaCodeFindbugs.AddCruftDeclarations | prototypes/src/java_code_findbugs.py:64-72 | The output contains `package foobar;`, `import java.util.*;` and `import java.util.stream.*;`, whatever the answer. |
| JavaCodeFindbugs.AddCruft | prototypes/src/java_code_findbugs.py:54-72 | The answer comes last, followed only by a newline and four spaces. |
| JavaCodeFindbugs.StaticImportShown | prototypes/src/java_code_findbugs.py:62-72 | A truthy `import_static` puts its static import into the output. |
| JavaCodeFindbugs.HeaderHasNoStaticImport | prototypes/src/java_code_findbugs.py:64-70 | The fixed template holds no `import static `. |
| JavaCodeFindbugs.StaticImportOnlyWhenGiven | prototypes/src/java_code_findbugs.py:62-72 | Without a truthy `import_static`, and none in the answer, the output has no static import. |
| JavaCodeFindbugs.AssembledFinalClass | prototypes/src/java_code_findbugs.py:80-83 | An assembled `public final class X` keeps its `public` and comes last. |
| JavaCodeFindbugs.AssembleStudentAnswer | prototypes/src/java_code_findbugs.py:80-83 | An answer containing none of the seven search strings is wrapped as it is. |
| JavaCodeFindbugs.TesterText | prototypes/src/java_code_findbugs.py:99-114 | The tester text holds the answer, then the support files, then the test code inside `Tester.main`, at increasing positions. |
| PythonCodeCheckr.GuardRuleIsIdentity | prototypes/src/python_code_checkr.py:63-74 | The guard rule replaces the guard by itself, so only the other three rules act, whatever the number of guards. |
| PythonCodeCheckr.RemoveCruft | prototypes/src/python_code_checkr.py:58-74 | An answer without `import `, `from ` or the exact main block is returned unchanged. |
| PythonCodeCheckr.MainBlockRewritten | prototypes/src/python_code_checkr.py:70-74 | The main block with 4-space `main()` becomes the one calling `diddle()`. |
| PythonCodeCheckr.TwoSpaceBlockKept | prototypes/src/python_code_checkr.py:70-74 | The same block indented by two spaces is left unchanged. |
| PythonCodeCheckr.FromImportCommented | prototypes/src/python_code_checkr.py:64-66 | `from m import n` becomes `#from m #import n`, for names without blanks that do not end in `import` or `from`. |
| PythonCodeCheckr.AddCruft | prototypes/src/python_code_checkr.py:77-91 | The output is the prelude, then the answer, then a newline: its length is the sum and the answer stands unchanged after the prelude. |
| PythonCodeCheckr.AddCruftIgnoresStaticImport | prototypes/src/python_code_checkr.py:77-91 | `import_static` has no effect: the output equals the one for `None`. |
| PythonCodeCheckr.NoStaticImportEvenWhenGiven | prototypes/src/python_code_checkr.py:77-91 | An answer without `import static ` gives an output without it, even for a truthy `import_static` (unlike the Java helpers). |
| PythonCodeCheckr.ImportsBeforeAnswer | prototypes/src/python_code_checkr.py:79-91 | `import unittest` and the `diddle` import stand on their own lines before the unchanged answer. |
| PythonCodeCheckr.AssembledFromImport | prototypes/src/python_code_checkr.py:94-97 | An assembled `from m import n` is the prelude followed by `#from m #import n` and a newline. |
| PythonCodeCheckr.AssembleStudentAnswer | prototypes/src/python_code_checkr.py:94-97 | The prelude, then the rewritten answer and a newline, whatever `import_static` is; an answer without `import `, `from ` or the main block follows the prelude as it is. |

## Left out

- File and console I/O is not modelled. This covers reading the CSV, creating the submissions directory, writing each answer to a file, every `print` of both detector `main` functions, and the module-level `main()` call of the older detector. The clusters, collaborators and e-mail list are returned as a report instead.
- `cheat/src/main.py` is not part of this model. It is command-line glue that refers to an undefined `cheat.foo`, and it builds option keys that `main` does not read.
- The regular-expression engine is not modelled. Each fixed pattern is written as a scanner over ASCII. Unicode `\w`, `\b` and `\s` beyond ASCII are left out. So are names containing whitespace or `#`, which `re.VERBOSE` would reinterpret once interpolated into a pattern. So are class, superclass, enum and constant names holding regular-expression metacharacters such as `$` (legal in Java identifiers), `.`, `*`, `+`, `?`, `(`, `[`, `{`, `|`, `^` or `\`: the source interpolates them unescaped, so they change what matches or make `re` raise `re.error`, while the model matches them literally.
- `_assemble_support_files` and `assemble_support_files` are left out: they list and read files. `_assemble_tester` of java_code_checkr is also left out: it adds exception-test scaffolding around the same text and writes it to a file. The file write of `assemble_tester` is left out too; its text is modelled as `JavaCodeFindbugs.TesterText`.
- `compile_and_run` and `compile_and_findbugs` are left out. They run `javac`, `java` and FindBugs as subprocesses.
- Raising is modelled as returning `OutOfSpec`, and printing as the `printed` field of `Passed`.
- The `setup` regex pattern string `IDENTIFIER` is left out. The profile keeps the keyword list it is built from, and masking is modelled directly.
- `JavaCodeCheckr.CheckForStaticMethod` is not specified as an if-and-only-if over all inputs. It is proved to decide by a method declaration whenever no match starts before it (`FirstStaticDecides`), including after a static field (`FieldThenDeclaration`), and to pass without `static`.
- `PythonCodeCheckr.FromImportCommented` is proved only for a single `from` clause with blank-free names that do not end in `import` or `from`. A name such as `xfrom` does get a second `#`.

## Findings

| source | as written | input that shows it | evidently intended | confidence | as-written member | corrected member |
|---|---|---|---|---|---|---|
| prototypes/src/java_code_checkr.py:352 | `student_answer.count('for ' or 'while ')` counts only `'for '`, because `'for ' or 'while '` evaluates to `'for '` | `while (x) {}` passes | raise on either `for ` or `while ` | high, not executed | JavaCodeCheckr.WhileLoopSlipsThrough | JavaCodeCheckr.CheckForNoLoopsIntended |
| prototypes/src/java_code_checkr.py:266-273 | only the first `static ... (` match is inspected, so it passes whenever that match is `main` | `static void main(String[] a) {}` followed by `static int f(int x) {}` passes | raise when any static method other than `main` is declared | medium, not executed | JavaCodeCheckr.StaticHelperSlipsThrough | JavaCodeCheckr.CheckForStaticMethodIntended |
