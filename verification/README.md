# sphinx-multiversion: reference listing and filtering, in Dafny

sphinx-multiversion builds one documentation site per version of a repository.
It takes the versions from git references: local branches, tags and remote
branches. `sphinx_multiversion/git.py` works out which references qualify:

- it lists every ref with `git for-each-ref`, one `objectname<TAB>refname<TAB>creatordate` line per ref;
- it parses each line into a `GitRef` and classifies the refname with the grammar
  `^refs/(heads|tags|remotes/[^/]+)/(\S+)$`;
- it filters the refs against three optional whitelist patterns (tag, branch, remote);
- it keeps only the refs whose tree records the documentation submodule at the current submodule commit, using `git ls-tree`.

It also reads a few values out of small git outputs: the toplevel path from
`rev-parse`, the current submodule commit from `ls-tree HEAD`, and the path
that `cat-file -e` is asked about.

The model replaces each git invocation by the text it prints:

- the `for-each-ref` listing is a string;
- `ls-tree <refname> <sourcedir>` is a function from refname to output;
- `rev-parse` output is a string.

Two library calls become parameters:

- `datetime.strptime` with the format `%Y-%m-%d %H:%M:%S %z` is a partial function `DateParser`, where None stands for ValueError;
- `re.match(pattern, text)` for a user pattern is a predicate `Matcher`.

The refname grammar is fixed, so it is modelled exactly. That includes `\S`
and Python's whitespace set, and the rule that `$` also matches just before a
final "\n".

`get_all_refs` and `get_refs` are generators. Each becomes a function that
returns a `Stream`: the refs yielded, in order, and the exception that ended
the iteration, if any. A `get_refs` caller sees the refs of one listing being
filtered as they arrive. An IndexError from the submodule check therefore
comes before any later line of the listing is parsed, and it wins over a
ValueError further down.

Files:

- `wrappers.dfy` holds `Option`.
- `pystr.dfy` holds the Python `str` operations the code relies on:
  - `isspace` and `\s`;
  - `strip()`, `split("\t")`, `split()` and `splitlines()`;
  - `replace` and `partition`.
- `git.dfy` holds the model of `git.py`.

Behaviour that is easy to misread:

- The name group is `(\S+)`, so a refname whose name contains whitespace is skipped.
- A ref carries no submodule commit of its own. It is kept when the third token of its `ls-tree` output equals the single `current_submodule_commit` passed in (`git.py:64`).
- A remote ref with no remote whitelist is not rejected by a rule of its own. It falls through to the final `else`.

## Model

| member | source | states |
|---|---|---|
| Git.ClassifyRefname | sphinx_multiversion/git.py:89-95 | when the refname grammar matches, source is heads, tags or remotes/ plus one slash-free segment, name is a non-empty run of non-whitespace, and the refname is "refs/" + source + "/" + name (or that plus the final "\n" that `$` admits) |
| Git.ClassifyRefPath | sphinx_multiversion/git.py:89-95 | every refname the grammar describes is matched, and both groups are recovered from it |
| Git.NameGroup | sphinx_multiversion/git.py:90 | `(\S+)$` captures exactly a whitespace-free word, with at most one final "\n" left outside it |
| Git.RemoteGroups | sphinx_multiversion/git.py:90 | `remotes/[^/]+` ends at the first "/" after "remotes/"; the captured source is well formed and the rest is the name |
| Git.RefGroups | sphinx_multiversion/git.py:90 | the alternatives heads, tags and remotes, tried in order, capture a well-formed source and name that rebuild the text after "refs/" |
| Git.IsRemoteExactlyRemotes | sphinx_multiversion/git.py:97-98 | for a yielded ref, `is_remote` holds exactly when source is neither heads nor tags |
| Git.Fields | sphinx_multiversion/git.py:78 | `line.strip().split("\t")` gives one more field than the stripped line holds tabs, no field holds a tab, and joining the fields with tabs gives back the stripped line |
| Git.FieldCountRule | sphinx_multiversion/git.py:78-80 | a line is skipped for its field count exactly when the stripped line does not hold exactly two tabs |
| Git.ParseLine | sphinx_multiversion/git.py:77-100 | a line that yields a ref has three fields; commit is the first field and refname the second; the ref is well formed and its groups are what the grammar captures; for a line without a line break, refname is exactly "refs/" + source + "/" + name |
| Git.ParseRefLine | sphinx_multiversion/git.py:78-95 | for a line `commit<TAB>refname<TAB>date`: it raises exactly when strptime rejects the date, even when the refname would be skipped; it is skipped exactly when the date parses and the refname does not match; when it yields, commit, refname and date are those of the line |
| Git.ParseLines | sphinx_multiversion/git.py:76-100 | every ref the loop yields is well formed |
| Git.ParsedFromLines | sphinx_multiversion/git.py:76-100 | every yielded ref is what some line of the listing parses to |
| Git.LineStepYield | sphinx_multiversion/git.py:100 | a pass of the loop yields only for a parsed line, and yields that line's ref |
| Git.LineStepRaise | sphinx_multiversion/git.py:84-86 | a pass of the loop raises only for a bad date, and raises that date's ValueError |
| Git.ListingFailsIffBadDate | sphinx_multiversion/git.py:84-86 | the listing raises exactly when some line has three fields and a date strptime rejects, and what it raises is a ValueError (`FirstBadDateEndsListing` says which one) |
| Git.FirstBadDateEndsListing | sphinx_multiversion/git.py:84-86 | the first line with a bad date ends the listing: the refs of the lines before it are yielded, then the ValueError for that date |
| Git.ParseLinesAppend | sphinx_multiversion/git.py:76-100 | parsing a listing in two parts is parsing the first part, then, unless it raised, the second |
| Git.SkippedLine | sphinx_multiversion/git.py:78-93 | a line with the wrong field count or an unknown refname can be removed from the listing without changing what is yielded or raised |
| Git.SilentLine | sphinx_multiversion/git.py:76-100 | a line that yields nothing and raises nothing can be removed from the listing |
| Git.GetAllRefs | sphinx_multiversion/git.py:67-100 | every ref yielded from the `for-each-ref` output is well formed and its refname is exactly "refs/" + source + "/" + name |
| Git.GetAllRefsOfLines | sphinx_multiversion/git.py:75-76 | "\n"-terminated lines without line breaks are split back into exactly those lines |
| Git.ListingOfTwo | sphinx_multiversion/git.py:76-100 | a listing of two lines that both parse yields both refs, in order, and does not raise |
| Git.ListingOfTwoBranches | sphinx_multiversion/git.py:67-100 | a listing of two local branches yields both branches with their names, commits and dates, in order |
| Git.ParseBranchLine | sphinx_multiversion/git.py:78-100 | the listing line of a local branch parses to a heads ref that is not remote and has the line's commit, name and date |
| Git.Admit | sphinx_multiversion/git.py:112-156 | an admitted tag matched the tag whitelist and any other admitted ref matched the branch whitelist; an admitted ref that is neither a tag nor a local branch is remote and matched the remote whitelist on its remote name; `TagRow`, `HeadsRow`, `RemoteRow` and `NoWhitelistAdmitsNothing` give the table row by row |
| Git.TagRow | sphinx_multiversion/git.py:112-120 | a tag is admitted exactly when a tag whitelist is set and matches its name; otherwise it is skipped as a tag |
| Git.HeadsRow | sphinx_multiversion/git.py:121-131 | a local branch is admitted exactly when a branch whitelist is set and matches its name; otherwise it is skipped as a branch |
| Git.RemoteNameOfRef | sphinx_multiversion/git.py:133 | `source.partition("/")[2]` of a remote ref is the remote's name |
| Git.RemoteRow | sphinx_multiversion/git.py:132-156 | a remote branch is admitted exactly when the remote whitelist is set and matches the remote name and the branch whitelist is set and matches the name; with no remote whitelist it falls to the final else |
| Git.NoWhitelistAdmitsNothing | sphinx_multiversion/git.py:112-156 | with no whitelist configured, no ref is admitted |
| Git.SubmoduleExists | sphinx_multiversion/git.py:51-64 | empty `ls-tree` output means the submodule is absent; the check passes only for a commit that is a non-empty run of non-whitespace |
| Git.CurrentSubmoduleCommit | sphinx_multiversion/git.py:40-48 | the commit read is a non-empty run of non-whitespace, or IndexError |
| Git.LsTreeLineTokens | sphinx_multiversion/git.py:59-64 | an `ls-tree` entry line splits into mode, type and object name, then the tokens of its path |
| Git.SubmoduleExistsOnEntry | sphinx_multiversion/git.py:59-64 | for an `ls-tree` entry, the check compares the recorded object name with the current commit, and the current commit read from it is that object name |
| Git.SubmoduleExistsAgreesWithCurrent | sphinx_multiversion/git.py:48-64 | for non-empty output, the check passes exactly for the commit `get_current_submodule_commit` reads from the same output, and both raise IndexError together |
| Git.RefStep | sphinx_multiversion/git.py:112-170 | one pass of the filter loop yields the ref unchanged exactly when it is admitted and its tree has the submodule at the current commit; it raises exactly when it is admitted and its `ls-tree` output is non-empty with fewer than three tokens |
| Git.FilterRefs | sphinx_multiversion/git.py:111-170 | the refs yielded are an in-order subsequence of the input, each unchanged and kept by the table and the submodule check; it raises exactly when some ref makes the submodule check raise; when it does not raise, every ref the rules keep is yielded |
| Git.FilterRefsAppend | sphinx_multiversion/git.py:111-170 | filtering two stretches of refs is filtering the first, then, unless it raised, the second |
| Git.GetRefs | sphinx_multiversion/git.py:103-170 | the refs yielded are an in-order subsequence of those `get_all_refs` yields; each is well formed and kept; it ends without an exception exactly when the listing does and no admitted ref makes the submodule check raise; in that case every ref the rules keep is yielded |
| Git.MainOnlyScenario | sphinx_multiversion/git.py:67-170 | branch whitelist "main", with main whose tree has the submodule at the current commit and experiment whose tree lacks it: exactly main is yielded |
| Git.FilterMainOnly | sphinx_multiversion/git.py:111-170 | the filter step of that scenario keeps main and skips experiment |
| Git.ListingMainAndExperiment | sphinx_multiversion/git.py:67-100 | the listing step of that scenario yields main then experiment |
| Git.GetToplevelPath | sphinx_multiversion/git.py:26-37 | the path is a non-empty run of non-whitespace; IndexError exactly when the output is all whitespace |
| Git.ToplevelIsLastWord | sphinx_multiversion/git.py:37 | the path is the last whitespace-separated word of the output, whatever whitespace precedes or follows it |
| Git.ToplevelOneLine | sphinx_multiversion/git.py:34-37 | outside a submodule, the one printed line (a path without whitespace) is returned |
| Git.ToplevelTwoLines | sphinx_multiversion/git.py:34-37 | inside a submodule, the superproject's path, printed on the second line, is returned (both paths without whitespace) |
| Git.ToplevelPathCutAtSpace | sphinx_multiversion/git.py:37 | as written, a toplevel path containing a space comes back as its last space-separated part |
| Git.GetToplevelPathByLine | sphinx_multiversion/git.py:34-37 | the path read by line contains no line break |
| Git.ToplevelPathByLineIsLastLine | sphinx_multiversion/git.py:34-37 | read by line, the result is the superproject's path when `rev-parse` prints one and the repository's own path otherwise, spaces included |
| Git.GitPath | sphinx_multiversion/git.py:174-176 | the path has the same length as the file name, and every platform separator is turned into "/" with every other character kept |
| Git.GitPathNormal | sphinx_multiversion/git.py:174-176 | after the rewrite no platform separator other than "/" remains, and rewriting again changes nothing |
| Git.CatFileObject | sphinx_multiversion/git.py:182 | the object is refname, then ":", then the rewritten path; for a refname without ":", what follows the first ":" is exactly the rewritten path |
| Git.Run | sphinx_multiversion/git.py:76-100 | a generator loop yields only what its passes yield; it raises exactly when some pass raises, with that pass's exception; without an exception everything the passes yield is yielded |
| Git.RunAppend | sphinx_multiversion/git.py:76-100 | running two stretches of passes is running the first, then, unless it raised, the second |
| Git.RunFirstRaise | sphinx_multiversion/git.py:84-86 | the first pass that raises ends the loop, after what the passes before it yielded |
| Git.RunSubsequence | sphinx_multiversion/git.py:111-170 | when each pass yields, if anything, its own input, the loop yields an in-order subsequence of its inputs |
| PyStr.Strip | sphinx_multiversion/git.py:78 | `strip()` is never longer than its input and leaves a text that neither starts nor ends with whitespace; `StripAround` shows it removes exactly the surrounding whitespace |
| PyStr.StripSpec | sphinx_multiversion/git.py:78 | the result of `strip()` is empty exactly when the input is all whitespace; it adds no line break |
| PyStr.StripAround | sphinx_multiversion/git.py:78 | `strip()` removes exactly the whitespace around a trimmed core |
| PyStr.SplitOn | sphinx_multiversion/git.py:78 | `split("\t")` gives one more field than there are tabs, and no field holds a tab |
| PyStr.JoinSplit | sphinx_multiversion/git.py:78 | joining the fields of `split(sep)` with sep gives back the text |
| PyStr.SplitJoin | sphinx_multiversion/git.py:78 | `split(sep)` recovers fields that hold no sep from their join |
| PyStr.Tokens | sphinx_multiversion/git.py:64 | `split()` gives at most one token per character; `TokensSpec`, `TokensOfWord` and `TokensSplitAt` pin the tokens themselves |
| PyStr.TokensSpec | sphinx_multiversion/git.py:64 | every token of `split()` is a non-empty run of non-whitespace; there are none exactly when the text is all whitespace |
| PyStr.TokensOfWord | sphinx_multiversion/git.py:64 | `split()` of a single word is that word |
| PyStr.TokensSplitAt | sphinx_multiversion/git.py:64 | a whitespace character separates the tokens on its two sides |
| PyStr.SplitLines | sphinx_multiversion/git.py:76 | no line of `splitlines()` contains a line boundary |
| PyStr.SplitJoinLines | sphinx_multiversion/git.py:76 | `splitlines()` gives back lines written one per "\n"-terminated line |
| PyStr.Replace | sphinx_multiversion/git.py:176 | `replace` of one character keeps the length and swaps exactly the occurrences of that character |
| PyStr.AfterFirst | sphinx_multiversion/git.py:133 | `partition(sep)[2]` is empty when sep does not occur |
| PyStr.AfterFirstAt | sphinx_multiversion/git.py:133 | `partition(sep)[2]` is exactly what follows the first sep |

## Left out

- Running git: process launch, exit codes, `check_output` raising CalledProcessError, and UTF-8 decoding of output. Outputs are inputs to the model: a string, or a function from refname to `ls-tree` output.
- Whether `git cat-file -e` succeeds. `file_exists` is modelled up to the object name it asks about, because the answer comes from the repository.
- `copy_tree` and `copy_submodule` (git.py:190-222): archive creation and extraction, temporary files and filesystem writes.
- The regular-expression engine behind `re.match` for the user's whitelist patterns, including `re.error` for an invalid pattern. It is the `Matcher` parameter, and no prefix-match property of it is stated.
- How `datetime.strptime` parses `%Y-%m-%d %H:%M:%S %z`. It is the `DateParser` parameter, and `DateTime` is only its result type.
- The `logging.debug` messages. The `Verdict` of the decision table names the rule that rejected a ref instead.
- Detection of `os.sep`. The separator is a single-character parameter.
- Lazy evaluation of the generators. Streams are whole values, so the model does not cover a caller that stops iterating early, nor the re-invocation of `for-each-ref` on each call.

## Findings

| source | as written | input that shows it | evidently intended | confidence | as-written member | corrected member |
|---|---|---|---|---|---|---|
| sphinx_multiversion/git.py:37 | `output.split()[-1]`: the last whitespace-separated token of the `rev-parse` output | a repository at `/home/u/my docs`: the output `/home/u/my docs\n` gives `docs` | the last line of the output, as the comment at lines 34-36 describes: the superproject's path when it is printed, the repository's own path otherwise | high, not executed | Git.ToplevelPathCutAtSpace | Git.ToplevelPathByLineIsLastLine |
