# A verified model of a small Unix shell's front end

The shell in `src/project.c` reads a line and cuts it into parallel
commands on `&`. It parses each command into an argument vector with at
most one output redirection (`> file`). It then runs each command as a
builtin (`exit`, `cd`, `path`) or as a program found along a search path.

This project models those steps up to the point where the shell forks:

- **`CString`** (`cstring.dfy`): the C string primitives the code relies
  on, over a mutable `array<char>` where `'\0'` ends a string.
  - `StrLen`, `StrChr`, `StrDup` and `StrTok` model strlen, strchr, strdup
    and strtok/strtok_r.
  - strtok's hidden position becomes an explicit index.
  - Each primitive is proved against pure index functions: `Skip` (strspn),
    `Span` (strcspn) and `TokensIn` (the successive tokens), and against
    the NULs it writes (`CutToken`, `CutsUpTo`).
- **`Parser`** (`parser.dfy`): `parse_command`, run in place on the line
  buffer.
  - `ParseAt` states the result: a command, NULL because there are no
    words, or NULL after the error message for a bad redirection.
  - `ParseWrites` states which bytes of the buffer become NUL.
  - `ParseCommand` implements the C algorithm and is proved to do both.
- **`Splitter`** (`splitter.dfy`): `split_parallel_commands`, also in
  place.
  - `SplitCmds` and `SplitWrites` state the commands collected and the
    NULs written. `SplitErrors` states which segments printed the
    redirection error while being parsed, by the index where each begins.
  - `SplitParallelCommands` models the function as written, including its
    final test at line 278.
  - `ParallelCommands` and `SplitParallelCommandsFixed` are the corrected
    version (see Findings).
- **`Path`** (`path.dfy`): the `path_dirs`/`path_count` globals as the
  class `PathTable`, holding `dirs: seq<string>`.
  - The constructor is `init_path`, `Update` is `update_path`, and
    `FindExecutable` is `find_executable`.
  - `FindExecutable` is proved against the pure `Resolve`.
- **`Executor`** (`executor.dfy`): `handle_builtin` and `execute_command`
  up to the fork.
  - `BuiltinOf` and `Decide` are pure functions returning an outcome value.
  - `HandleBuiltin` and `ExecuteCommand` are the methods against a
    `PathTable`, proved against those functions.

Two operating-system calls are parameters of the model:

- `access(p, X_OK) == 0` becomes the oracle `executable: string -> bool`;
- `chdir(d) == 0` becomes the oracle `chdirOk: string -> bool`.

`argv` is a `seq<string>` without its NULL terminator. A NULL `cmd_t*` is
the `NoWords`/`BadRedirection` result. A NULL command array with count 0 is
the empty sequence.

## Model

| member | source | states |
|---|---|---|
| CString.StrLen | src/project.c:253 | strlen of the string at p is the distance to the NUL that ends it |
| CString.StrChr | src/project.c:164 | strchr returns the first index of c in the string, or nothing when c does not occur |
| CString.StrDup | src/project.c:224 | strdup returns exactly the characters of the string |
| CString.StrDupBuffer | src/project.c:195 | strdup into a fresh buffer copies the string and its terminating NUL, and leaves the original alone |
| CString.StrTok | src/project.c:201-204 | one strtok(_r) call skips delimiters, returns no token at the end of the string, otherwise returns the token start, overwrites the delimiter after the token with NUL and resumes after it; no other byte changes |
| CString.TokensShape | src/project.c:201-205 | every token strtok returns is nonempty and free of delimiters |
| CString.NoTokens | src/project.c:208-211 | there are no tokens exactly when the string consists of delimiters only |
| CString.TokensOfJoin | src/project.c:222-232 | round trip: tokenising words joined by one delimiter gives back the words |
| CString.TokensConcat | src/project.c:201-205 | tokens of x, a delimiter, then y are the tokens of x followed by those of y |
| CString.TokensSkipLead | src/project.c:201 | leading delimiters do not change the tokens |
| CString.TokensTrailing | src/project.c:253-257 | trailing delimiters do not change the tokens |
| Parser.TrimEnd | src/project.c:186-190 | the trimmed end lies within the string, removes only blanks, stops at a non-blank, and never removes the first character |
| Parser.SkipBlanks | src/project.c:169 | the leading-blank loop stops at the first non-blank (Skip) |
| Parser.TrimTrailing | src/project.c:253-257 | the trailing-blank loop ends the string at TrimEnd, writing NUL over exactly the trimmed blanks |
| Parser.CountTokens | src/project.c:194-206 | the counting pass on a copy returns the number of tokens and leaves the line untouched |
| Parser.FillArgv | src/project.c:220-233 | the second strtok pass returns exactly the token list, and the line afterwards holds NUL at exactly strtok's cuts |
| Parser.CheckTarget | src/project.c:168-178 | the target starts after the blanks following '>', and it is rejected exactly when it is empty, holds '>', or has a space that is not its last character |
| Parser.TrimmedCopy | src/project.c:179-190 | the stored target is the copy of the text after '>' with trailing blanks removed |
| Parser.RedirectTarget | src/project.c:166-191 | the redirection part yields the Target value: nothing when rejected, otherwise the trimmed name |
| Parser.ParseWords | src/project.c:193-233 | the command part yields its token list, or nothing when it has no tokens, with strtok's cuts written |
| Parser.ParseCommand | src/project.c:154-236 | parse_command returns ParseAt: the tokens before the first '>', with the checked and trimmed target; the line has NUL at the first '>' and, unless the target is rejected, at each cut of the command part, and nowhere else |
| Parser.ParsedShape | src/project.c:164-233 | a parsed command has at least one word; no word is empty or holds a blank or '>'; it is not background; a target is nonempty, holds no ' ' or '>', and neither starts nor ends with a blank |
| Parser.TargetShape | src/project.c:169-190 | an accepted target is nonempty, holds no ' ' or '>', and has no blank at either end |
| Parser.ParseJoin | src/project.c:194-233 | round trip: plain words joined by spaces parse back to exactly those words, with no redirection |
| Parser.ParseJoinRedirect | src/project.c:164-233 | round trip: "w1 ... wn > f" parses back to the words and the target f |
| Parser.TwoTargetsRejected | src/project.c:172-178 | "ls > a b" is rejected with the error |
| Parser.MissingTargetRejected | src/project.c:172-176 | "cmd >", with no file after the '>', is rejected with the error |
| Parser.TwoRedirectionsRejected | src/project.c:172-176 | "cmd > a > b", with a second '>', is rejected with the error |
| Parser.TabInTargetAccepted | src/project.c:172-174 | only ' ' is checked in the target: "ls > a\tb" is accepted, with target "a\tb" |
| Parser.TrailingSpaces | src/project.c:172-190 | for parse_command alone, one trailing space after the target is accepted and trimmed and two are rejected; through split_parallel_commands the case does not arise, as the segment is trimmed first |
| Parser.RedirectWithoutCommand | src/project.c:208-211 | "> out" has no words and gives NULL without the redirection error |
| Splitter.NextStart | src/project.c:268 | the next strtok_r call starts after the current one and never beyond the end, moving forward while segments remain |
| Splitter.SplitCmds | src/project.c:248-269 | the collected commands never exceed 64 in all; every one is marked background and has a nonempty argv |
| Splitter.ProcessSegment | src/project.c:251-266 | one segment is trimmed at both ends and parsed when nonempty, giving SegCmd, and reports whether its parse printed the redirection error (SegError), with exactly SegWrites' NULs written |
| Splitter.CollectCommands | src/project.c:247-269 | the strtok_r loop returns SplitCmds in segment order, skips empty and unparsable segments, stops at 64, returns the starts of the segments whose parse printed an error (SplitErrors), and writes exactly SplitWrites' NULs |
| Splitter.SplitErrors | src/project.c:248-268 | the starts of the segments, among those the loop visits before the 64-command cap, whose parse reports the redirection error: in increasing order, inside the line, never at an '&' |
| Splitter.ErrorsAreRejected | src/project.c:259-261 | every reported start is where strtok_r's segment begins and that segment's parse is a redirection error |
| Splitter.NextSegment | src/project.c:251-268 | one iteration of the strtok_r loop keeps the commands, the error list and the written NULs equal to SplitCmds, SplitErrors and SplitWrites of the part already consumed |
| Splitter.SplitCmdsAtAmp | src/project.c:248-268 | for a segment free of '&' ended by an '&': the commands are that segment's command, when it gives one, followed by those of the rest of the line |
| Splitter.OnlyOperators | src/project.c:248-273 | a line made only of '&' and blanks yields no command, so the splitter returns NULL for it |
| Splitter.TrimmedTarget | src/project.c:252-260 | the segment is trimmed before parse_command, so "ls > out  " is accepted with target "out" |
| Splitter.SplitRunsCollapse | src/project.c:248-268 | runs of '&' collapse: starting anywhere inside a run gives the same commands |
| Splitter.FirstWriteFrom | src/project.c:278 | the first overwritten index from i on, or n: nothing before it is written |
| Splitter.SetLast | src/project.c:277-279 | only the last command's background flag changes |
| Splitter.SplitParallelCommands | src/project.c:239-282 | as written: the collected commands, NULL when there are none, with the last flag set by the test at line 278 on the modified line, and the error list SplitErrors; requires that line[-1] is never read |
| Splitter.LastCharIsAmp | src/project.c:278 | the test at line 278 reads the character before the first NUL now in the line |
| Splitter.FirstSegment | src/project.c:248-278 | before the first segment nothing is written; its first character is overwritten exactly when it is '>'; its end is cut |
| Splitter.FirstWriteIn | src/project.c:278 | strlen(line) after the loop lies inside the first segment, and equals its start exactly when that segment starts with '>' |
| Splitter.FirstWriteZero | src/project.c:278 | for a nonempty line, strlen(line) is 0 after the loop exactly when the line starts with '>'; line[-1] is then read when some command is collected |
| Splitter.AsWrittenFlagIs | src/project.c:278 | as written, the last command is background exactly when the first segment follows some '&' and starts with '>' |
| Splitter.AsWrittenFlags | src/project.c:262-279 | as written: at most 64 commands, all with words, every one except the last in the background, and the last's flag given by the line-278 test |
| Splitter.EndsWithAmp | src/project.c:276-279 | corrected test: whether the line's last non-blank character is '&' |
| Splitter.SplitParallelCommandsFixed | src/project.c:239-282 | the corrected splitter returns ParallelCommandsAt and the error list SplitErrors, writing the same NULs as the original |
| Splitter.ParallelFlags | src/project.c:262-279 | corrected: at most 64 commands, all with words, all but the last in the background, and the last in the background exactly when the line ends with '&' |
| Splitter.NoAmpOneSegment | src/project.c:248-269 | a line without '&' yields at most one command |
| Splitter.NoAmpTrailing | src/project.c:276-279 | a line without '&' does not end with '&' |
| Splitter.NoAmpForeground | src/project.c:262-279 | a line without '&' yields at most one command, in the foreground (both versions) |
| Splitter.SingleCommand | src/project.c:239-282 | a line with no '&' or '>' and some non-blank yields exactly one foreground command, its tokens, both as written and corrected |
| Splitter.SleepExample | src/project.c:276-279 | as written, "sleep 1 &" leaves its command in the foreground; corrected, in the background |
| Splitter.OutOfBoundsRead | src/project.c:278 | for ">out & ls" a command is collected and strlen(line) is 0, so line[-1] is read |
| Path.SearchFromFirst | src/project.c:105-116 | the search from directory i succeeds exactly when some later candidate is executable, and then gives the first one |
| Path.ResolveFirstHit | src/project.c:105-116 | a name without '/' resolves to dir + "/" + name for the first directory where that is executable |
| Path.ResolveNone | src/project.c:105-116 | a name without '/' resolves to nothing exactly when no candidate is executable (so always, for an empty list) |
| Path.ResolveSound | src/project.c:96-117 | whatever is resolved is executable, and is one of the candidates when the name has no '/' |
| Path.ResolveLiteral | src/project.c:97-103 | a name holding '/' resolves to itself when executable, otherwise to nothing, whatever the directories |
| Path.PathTable.constructor | src/project.c:47-60 | the initial search path is exactly ["/bin"] |
| Path.PathTable.Update | src/project.c:63-93 | the old list is dropped and replaced by a copy of the new one, element for element; it is empty when there are none |
| Path.PathTable.FindExecutable | src/project.c:96-117 | the lookup returns Resolve over the current list |
| Executor.BuiltinNames | src/project.c:120-151 | exit, cd and path are always handled, whatever their arguments or the outcome of chdir; any other name is not a builtin |
| Executor.ExitArity | src/project.c:123-129 | exit terminates only with no arguments; with any argument it is a usage error |
| Executor.CdArity | src/project.c:131-140 | cd needs exactly one argument; any other count is a usage error, with chdir never consulted |
| Executor.ErrorReports | src/project.c:123-140 | handle_builtin prints an error exactly for exit with arguments, for cd without exactly one argument, and for cd whose chdir fails |
| Executor.BuiltinsNotResolved | src/project.c:289-292 | a builtin is decided without the search path or the executable oracle |
| Executor.LaunchShape | src/project.c:294-334 | a launch uses the command's argv and redirection and an executable path resolved for argv[0], and waits exactly when the command is not background |
| Executor.NotFoundExactly | src/project.c:294-298 | an external name without '/' fails with -1 exactly when no candidate is executable |
| Executor.InitialPathLookup | src/project.c:47-60 | with the initial path, an external name runs as "/bin/" + name when that is executable, and is not found otherwise |
| Executor.HandleBuiltin | src/project.c:120-151 | handle_builtin returns BuiltinOf and reports "handled" exactly for builtins; only path changes the search path, to its arguments |
| Executor.ExecuteCommand | src/project.c:285-298 | execute_command takes the Decide outcome for the path in force: -1 without argv[0], the builtin, not found, or a launch with waitNow equal to not background |
| Executor.PathSession | src/project.c:142-147 | after init_path and a series of path builtins, the search path is the arguments of the last one, or ["/bin"] when there were none |
| Executor.StripNewline | src/project.c:365-367 | the batch loop removes one trailing newline and nothing else |

## Left out

- Process lifecycle is not modelled: fork, execv, waitpid, wait_for_children, and open/dup2/close in the child (lines 300-339). `Launch` is an outcome value, and `waitNow` says whether the shell would wait for the child.
- The return value of execute_command for a launch (the child's pid) is not modelled, and neither is the fork-failure path (lines 300-304).
- File and terminal input in `main` (getline, fopen, the prompt, the argc check) is not modelled; only the newline strip is, as `StripNewline`.
- Errors are modelled as outcome values (`BadRedirection`, `UsageError`, `Cd(_, false)`, `NotFound`) and, in the splitter, as the list of segment starts `SplitErrors`. The write to stderr itself is not modelled.
- Allocation failures are not modelled: malloc, calloc, strdup and asprintf are assumed to succeed, and free_command is omitted. The asprintf-failure branch inside the search loop (lines 107-110) is one of these.
- The semantics of access and chdir are not modelled; they are the oracles `executable` and `chdirOk`. The effect of chdir on the working directory is not modelled either.
- `exit(0)` is the outcome `Exit`; termination itself is not modelled.
- Splitter.SplitParallelCommands: for a line starting with '>' from which some command is collected, the C code reads line[-1]. That is undefined behaviour, so this method requires that no command is collected from such a line. `FirstWriteZero` and `OutOfBoundsRead` characterise exactly when the read happens.
- A '>' with nothing before it is not reported as an error: lines 208-211 return NULL without a message, and the model follows the code (`RedirectWithoutCommand`).
- MAX_PATH_DIRS (256) is declared but never used by the code, so the model has no bound on the length of the search path.

## Findings

| source | as written | input that shows it | evidently intended | confidence | as-written member | corrected member |
|---|---|---|---|---|---|---|
| src/project.c:278 | the trailing-'&' test reads the character before the first NUL in the line; by then strtok_r has cut the first '&' (line 248), the trimming loop has overwritten the first segment's trailing blanks (lines 254-256), and parse_command has written at its '>' and after its words (lines 167, 222, 231), so the first NUL lies inside the first segment (`FirstWriteIn`) | "sleep 1 &" gives a foreground command; ">out & ls" reads line[-1] | the last command is background exactly when the line ends with '&' (trailing blanks aside), as the comment at line 276 says | high: proved in the model, not executed | Splitter.SleepExample | Splitter.ParallelFlags |

The as-written side is `Splitter.SplitParallelCommands`. Four lemmas describe it:

- `Splitter.AsWrittenFlagIs`: the flag is true only when the first segment follows some '&' and starts with '>';
- `Splitter.SleepExample`: "sleep 1 &" stays in the foreground;
- `Splitter.FirstWriteZero`: for a nonempty line, strlen(line) is 0 after the loop exactly when the line starts with '>'. line[-1] is then read when some command is collected; when none is, the function returns NULL at lines 271-273 first;
- `Splitter.OutOfBoundsRead`: a concrete line where it happens.

The corrected side is `Splitter.SplitParallelCommandsFixed`. It returns `Splitter.ParallelCommands`, which tests the last non-blank character of the original line (`Splitter.EndsWithAmp`). `Splitter.ParallelFlags` proves its flags.
