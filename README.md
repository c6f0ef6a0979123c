# trejs command resolution, modelled in Dafny

`trejs <command>` explains what a command name stands for. It asks the user's
shell (`$SHELL -ic 'type <command>'`) whether the name is a builtin or an alias.
If the shell has nothing to say, it searches `PATH` for an executable. If the
name is an alias, it follows the alias to the command it names. It keeps going
until it reaches a builtin or an executable, finds nothing, or meets a name it
has already resolved. Every step is printed.

This project models that resolution engine (`src/trejs.c`) and proves what it
does. The model has six modules:

- `Opt` (option.dfy): the `Option` datatype that stands for a nullable pointer.
- `CString` (cstring.dfy): the C string primitives the engine relies on.
  - `UntilNul` is the C view of a buffer: text after its first NUL is not seen.
  - `Contains` is `strstr(s, pat) != NULL`.
- `PathSearch` (path_search.dfy): `find_in_path`.
  - `Tokens` gives the entries `strtok` yields: the `:`-separated fields, with
    empty fields dropped.
  - The class `Tokenizer` holds `strtok`'s saved position.
  - `BuildCandidate` fills the `entry_len + command_len + 2` buffer.
  - The `FindInPath` method is proved equal to the specification function
    `SearchPath`.
  - The `stat` call and the owner-execute test become a set of the path names
    that pass them.
- `ShellReply` (shell_reply.dfy): the line scan of `find_type` and `get_group`.
  - The shell's reply is a sequence of lines.
  - The one extended regular expression the program compiles,
    ``.*is aliased to `(([^' ]*) [^']*)'``, is matched by hand (`AliasAt`,
    `MatchAlias`). POSIX leftmost-longest semantics are followed: the match
    whose literal starts latest wins.
  - The `FindType` loop is proved equal to `Classify`: the first line that
    says something wins.
- `Resolver` (resolver.dfy): `find` with its two-bit ban mask (`FIND_TYPE` = 1,
  `FIND_PATH` = 2).
  - The two lookups are passed in as functions.
  - `Resolution.consulted` records which lookups ran, in order.
- `Walker` (walker.dfy): `already_seen`, `mk_cmd`, `maybe_mk_cmd` and
  `find_recursive`.
  - The linked list of `(name, done)` nodes is the class `Chain`, whose `seq`
    field the methods update in place.
  - What the program prints becomes a sequence of `Event` values.
  - The `FindRecursive` method is proved equal to the specification function
    `Walk`. The properties of `Walk` are proved as lemmas:
    - the list's shape, kept by every pass;
    - the three ways the walk can stop;
    - when "done" is printed;
    - a bound on the walk's length;
    - the outcomes for builtins, missing commands, alias chains and cycles.

The walker sees the two lookups through the datatype `Lookups`. `LookupsOf`
builds one from a process environment `Env`:

- the value of `PATH`;
- the value of `SHELL`;
- the shell's reply for each name, as a finite map; a name outside the map gets
  an empty reply;
- the set of executable path names.

Because the map is finite, only finitely many names can be aliases (`Bounded`).
That bound is what makes the walk terminate in the model.

Where the code and its documentation disagree, the model follows the code:

- **The first PATH entry is never tried.** With `PATH=/a:/b` and `cmd`
  executable in both directories, the program answers `/b/cmd`, not `/a/cmd`
  (`PathSearch.SecondEntryFound`). The first `strtok(path, ":")` at
  src/trejs.c:36 consumes the first entry, and the loop starts at the second.
- **The alias target may be empty.** `[^' ]*` matches the empty string, so a
  body starting with a space yields an alias for `""`
  (`ShellReply.EmptyTargetAccepted`).
- **A one-word alias is not recognised.** The pattern needs a space inside the
  quotes, so a reply such as ``ll is aliased to `ls'`` classifies as nothing
  (`ShellReply.OneWordAliasUnclassified`).

`strtok` writes NULs into the `PATH` string held by the environment. After one
search, a second search would see only the first entry. The model does not
carry that mutation. Instead it proves the mutation can never be observed:

- every walk consults the path search at most once;
- that search is the walk's last lookup (`Walker.WalkSearchesPathLast`).

## Model

| member | source | states |
|---|---|---|
| CString.UntilNul | src/trejs.c:130-137 | the C view of a line is a prefix of it, holds no NUL, and stops exactly at the first NUL |
| CString.Contains | src/trejs.c:131 | `strstr` finds the pattern exactly when it occurs at some position of the text |
| PathSearch.Fields | src/trejs.c:36-38 | splitting at every ':' yields at least one field and no field holds a ':' |
| PathSearch.JoinFields | src/trejs.c:36-38 | joining the fields with ':' gives back the original PATH: the split loses nothing |
| PathSearch.Tokens | src/trejs.c:36-38 | the entries `strtok` hands out are non-empty and hold no ':' |
| PathSearch.TokensAreNonEmptyFields | src/trejs.c:36-38 | the entries are exactly the ':'-separated fields with the empty ones dropped, in order |
| PathSearch.TokensSplit | src/trejs.c:36-38 | the entries of `a:b` are the entries of `a` followed by those of `b` |
| PathSearch.RepeatedDelimiterCollapses | src/trejs.c:36-38 | `::` yields the same entries as a single `:` |
| PathSearch.SingleToken | src/trejs.c:36-38 | a non-empty text without ':' is one entry |
| PathSearch.Tokenizer.constructor | src/trejs.c:36 | a fresh tokenizer will hand out all entries of the string |
| PathSearch.Tokenizer.Next | src/trejs.c:36-42 | one `strtok` call returns the next entry and consumes it, or NULL with nothing left |
| PathSearch.SkipDelimiters | src/trejs.c:38 | skipping leading ':' stops at a non-delimiter or the end and changes no entry |
| PathSearch.TokenEnd | src/trejs.c:38 | the entry runs to the next ':' or the end of the string and holds no ':' |
| PathSearch.BuildCandidate | src/trejs.c:43-48 | the buffer of `entry_len + command_len + 2` characters holds exactly `entry + "/" + command` and its NUL |
| PathSearch.Candidates | src/trejs.c:36-42 | the entries tried are the non-empty ':'-separated fields of PATH except the first, in order |
| PathSearch.FirstExecutable | src/trejs.c:37-56 | NULL exactly when no candidate passes the check; otherwise the first candidate that passes, all earlier ones failing |
| PathSearch.FindInPath | src/trejs.c:30-57 | the `strtok` loop with its early return computes `SearchPath` |
| PathSearch.OneEntryNeverMatches | src/trejs.c:36-56 | with at most one PATH entry nothing is ever found |
| PathSearch.SecondEntryFound | src/trejs.c:36-53 | `PATH=/a:/b`, with `cmd` executable in both, finds `/b/cmd` |
| PathSearch.FirstEntryNeverTested | src/trejs.c:36-42 | if only the first entry's candidate is executable, nothing is found unless a later entry names the same file |
| ShellReply.QuoteFrom | src/trejs.c:121 | the first quote at or after a position, or none |
| ShellReply.AliasAt | src/trejs.c:121 | a match anchored at one literal has groups of the pattern's shape: target = body up to its first space, no space in the target, no quote in the body |
| ShellReply.MatchAlias | src/trejs.c:121 | `regexec` succeeds exactly when some literal position yields groups; the result is the one from the latest such position |
| ShellReply.AliasAtForm | src/trejs.c:121 | a line `P + "is aliased to `" + T + " " + R + "'" + S`, with T free of quotes and spaces and R free of quotes, matches at the literal with declaration `T + " " + R` and target T |
| ShellReply.AliasAtSound | src/trejs.c:121 | every match at a literal comes from a line of that form whose literal starts at that position, with the groups it names |
| ShellReply.MatchAliasSound | src/trejs.c:121 | every match of the whole line comes from a line of that form |
| ShellReply.MatchAliasComplete | src/trejs.c:121 | every line of that form matches |
| ShellReply.MatchAliasExact | src/trejs.c:121 | when T and R hold no backtick and S no quote, the groups are exactly `T + " " + R` and T |
| ShellReply.NoLaterLiteral | src/trejs.c:121 | in such a line no later position can start a match |
| ShellReply.GetGroup | src/trejs.c:60-76 | `get_group` for group 1 or 2 returns a string exactly when the pattern matches |
| ShellReply.ClassifyLine | src/trejs.c:131-149 | a line yields either a builtin (no alias, builtin_match 1) or an alias carrying the SHELL value with builtin_match 0, whose target is its declaration up to the first space |
| ShellReply.Classify | src/trejs.c:130-151 | NULL exactly when no line says anything; otherwise the answer of the first line that does, every earlier line saying nothing |
| ShellReply.FindType | src/trejs.c:126-155 | the `getline` loop with its breaks computes `Classify` of the reply |
| ShellReply.OneWordBodyRejected | src/trejs.c:121 | an alias body without a space does not match the pattern |
| ShellReply.OneWordAliasUnclassified | src/trejs.c:130-151 | such a reply line yields no answer at all |
| ShellReply.AliasReplyMatches | src/trejs.c:121 | `<name> is aliased to `T R'` matches whatever the name |
| ShellReply.AliasReplyClassified | src/trejs.c:137-147 | the alias reply for `T + " " + R` gives the alias with declaration `T + " " + R` and target T |
| ShellReply.FirstWordIsTarget | src/trejs.c:137-147 | ``ls is aliased to `ls --color=auto -la'`` gives target `ls` and that whole declaration |
| ShellReply.BuiltinTestComesFirst | src/trejs.c:131-139 | a line that matches the alias pattern but mentions "is a shell builtin" classifies as a builtin |
| ShellReply.BuiltinInBody | src/trejs.c:131-136 | any alias reply whose body mentions "is a shell builtin" classifies as a builtin |
| ShellReply.BuiltinLine | src/trejs.c:131-136 | a line mentioning "is a shell builtin" classifies as a builtin |
| ShellReply.EmptyTargetAccepted | src/trejs.c:121 | a body that starts with a space yields an alias with an empty target |
| ShellReply.TextAfterNulIgnored | src/trejs.c:130-137 | what follows a NUL in a line does not change its classification |
| Resolver.Find | src/trejs.c:177-195 | the shell is asked exactly when not banned, and first. Its answer wins without a path search. Otherwise the path search runs exactly when not banned and decides. A match holds exactly one answer. No lookup runs twice |
| Resolver.BothBannedFindsNothing | src/trejs.c:173-195 | with both bits banned nothing is asked and NULL is returned |
| Resolver.OnlyLowBitsMatter | src/trejs.c:173-187 | bits of the mask above `FIND_TYPE` and `FIND_PATH` change nothing |
| Walker.LookupsOf | src/trejs.c:182-188 | the lookups over a process environment report aliases only for names the shell table holds |
| Walker.MkCmd | src/trejs.c:218-224 | a new node has the given name and is not done |
| Walker.MaybeMkCmd | src/trejs.c:227-232 | a node exactly when a name is given, built by `mk_cmd` |
| Walker.Chain.constructor | src/trejs.c:247 | the list starts as the single node for the command |
| Walker.Chain.AlreadySeen | src/trejs.c:206-215 | true exactly when some node has this name and is done |
| Walker.Chain.MarkDone | src/trejs.c:278 | sets `done` on one node and changes nothing else |
| Walker.Chain.Link | src/trejs.c:279-281 | appends the new node, if any, after the last one |
| Walker.Report | src/trejs.c:260-274 | the walk goes on exactly when the match is an alias, and then with its target |
| Walker.DoneNamesAdvance | src/trejs.c:278-281 | finishing a pass adds exactly the current name to the done names |
| Walker.ResolveAlias | src/trejs.c:255-266 | the next name is exactly the shell's alias target, and following an alias never searched PATH |
| Walker.Step | src/trejs.c:249-283 | one pass only appends to the printed events and the lookups made; it keeps every node before the current one unchanged, keeps the current node's name, and can only add nodes |
| Walker.StepFollows | src/trejs.c:260-281 | a pass that follows an alias marks the name done, appends its target as the new current node, prints the alias and asks only the shell |
| Walker.WalkFrom | src/trejs.c:249-283 | the rest of the walk only appends events and lookups, and keeps the name of every node already in the list |
| Walker.FindRecursive | src/trejs.c:246-285 | the loop over the list, updated in place, computes `Walk` |
| Walker.AdvanceLinked | src/trejs.c:278-281 | finishing a pass keeps the list's shape |
| Walker.StepLinked | src/trejs.c:249-283 | one pass keeps the list's shape and never renames an existing node |
| Walker.WalkFromLinked | src/trejs.c:249-283 | the rest of the walk keeps the list's shape and never renames an existing node |
| Walker.WalkLinked | src/trejs.c:247-283 | the final list starts with the command; every node but the last is done; each successor is its predecessor's alias target; done names are pairwise distinct |
| Walker.StepDone | src/trejs.c:275-277 | a last pass ends with "done", "already searched" or "no match". It prints "done" exactly when it marks its node done. That needs the name found and not an alias, and a name not done earlier that is found and is no alias always gets it |
| Walker.WalkFromDone | src/trejs.c:249-283 | the same holds at the end of any walk, and "done" is printed nowhere before its last event |
| Walker.StepStops | src/trejs.c:251-258 | a last pass ends with "already searched" exactly on a repeated name, and with "no match" exactly on a new name that nothing resolves |
| Walker.WalkFromStops | src/trejs.c:249-283 | the same holds at the end of any walk |
| Walker.WalkEnds | src/trejs.c:246-285 | the whole walk ends in exactly one of three ways. "done" comes exactly when the last node is marked done; that needs its name found and no alias, and a new name found with no alias always gets it. "already searched" comes exactly when the name was done earlier. "no match" comes exactly when the name is new and nothing resolves it |
| Walker.StepSearchesPathLast | src/trejs.c:36-38 | a pass that searches PATH does so as its last lookup, and only once |
| Walker.WalkFromSearchesPathLast | src/trejs.c:36-38 | a walk searches PATH at most once, as its very last lookup |
| Walker.WalkSearchesPathLast | src/trejs.c:36-38 | so the NULs `strtok` leaves in PATH are never seen by a later search |
| Walker.WalkLength | src/trejs.c:249-283 | the list never holds more nodes than there are alias names, plus one |
| Walker.WalkBuiltin | src/trejs.c:267-277 | a builtin prints its report and "done" after a single shell lookup |
| Walker.WalkNotFound | src/trejs.c:256-258 | a name unknown to both lookups prints "no match" and leaves its node not done |
| Walker.WalkAliasToExecutable | src/trejs.c:249-283 | an alias to an executable prints the alias, then the executable and "done" |
| Walker.WalkTwoCycle | src/trejs.c:251-254 | `a` aliased to `b` and `b` to `a` visits `a, b, a` and stops with "already searched" on the third pass |
| Walker.WalkSelfAlias | src/trejs.c:251-254 | an alias to itself stops with "already searched" on the second pass |
| Walker.SelfAliasedLs | src/trejs.c:251-254 | ``ls is aliased to `ls --color=auto -la'`` makes the whole program report the alias, then stop on the repeat |

## Left out

- Subprocess I/O is not modelled: building the `"%s -ic 'type %s'"` command, `popen`, `getline` and `pclose` (src/trejs.c:113-120, 152-154). The shell's reply for each name is an input: a sequence of lines in `Env.replies`.
- `getenv("PATH")` and `getenv("SHELL")` become the fields `Env.path` and `Env.shell`. The fatal exits when either is unset (src/trejs.c:33-35, 110-112) are not modelled.
- `main` and its argument check (src/trejs.c:287-295) are not modelled. The command name is a parameter.
- `stat` and `S_IXUSR` (src/trejs.c:49-50) are not modelled. The set `Env.executables` holds the path names that exist and are owner-executable.
- The regular-expression engine (`regcomp`, `regexec`, `regfree`) is not modelled. Only the one pattern is matched, by hand. The fatal exit on a compile failure (src/trejs.c:123-125) is left out, since the pattern is fixed.
- `get_group`'s `regmatch_t` array and its `assert` on the offsets (src/trejs.c:61-67) are not modelled. A successful match always sets both groups of this pattern.
- Memory management is not modelled: `alloc`'s failure exit, the `free` calls, `free2`, `free_type_match`, `free_match` and `free_cmds`. Only the size of the candidate buffer is kept (`PathSearch.BuildCandidate`).
- `printf` formatting is not modelled. Each printed line is an `Event` value carrying the same fields.
- PathSearch.Tokenizer.Next: models `strtok`'s saved position but not the NULs it writes into the environment's PATH. `Walker.WalkSearchesPathLast` shows that no later search could see them.
- PathSearch.BuildCandidate: lengths are unbounded integers. An overflow of `size_t` in `entry_len+command_len+2` is not modelled.
- ShellReply.GetGroup: the `unsigned int` cast of the group length is not modelled.
- `builtin_match` is a `nat`, not an `unsigned int`. The line scan only ever stores 0 or 1 in it (`ShellReply.ClassifyLine`).
- The walker's list (`Walker.Chain`) is a sequence of node values, not nodes linked by `next` pointers. The program only ever links a new node after the last one, so no aliasing between nodes is lost. `current` is the index of the last node.
- Walker.Walk: the walk needs `Bounded`, meaning only finitely many names may be aliases. A real shell could keep naming fresh aliases, and the program would then not terminate. `LookupsOf` establishes the bound for every environment.
- `tests.py` tests a different command-line tool, with other messages, and is not part of this model.
