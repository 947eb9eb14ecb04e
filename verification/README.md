# A verified model of the `tsh` job-control shell core

`shell.c` is a tiny Unix shell: it reads a line, splits it into arguments,
runs built-ins (`quit`, `fg`) itself, and otherwise forks a child, puts it in
the foreground or the background, and waits for it while signal handlers keep
two global slots up to date: `g_runningPid` (the foreground job's leader) and
`g_suspendedPid` (the one suspended job's leader), where 0 means "empty".

This project models that core in Dafny and proves properties of it.

- `Tokenizer` (`tokenizer.dfy`) — `parseline` as a recursive function over
  the characters of the line: the last character is overwritten by a space,
  leading spaces are skipped, a quote opens a span that runs to the next
  quote, anything else is a word that runs to the next space, and the walk
  stops when `strchr` finds no delimiter. A last argument starting with `&`
  is dropped and sets the background flag; a line without arguments yields
  an empty vector and the flag set (the C function returns 1).
- `TokenizerLoop` (`tokenizer_loop.dfy`) — the same function as the C code's
  pointer walk, a method with loops, proved equal to `Tokenizer.ParseLine`.
- `TokenizerProps` (`tokenizer_props.dfy`) — splitting on spaces, quoted
  spans, blank lines, unterminated quotes, and a round trip: a line printed
  from an argument vector parses back to that vector.
- `JobControl` (`jobs.dfy`) — the slots and every transition on them as a
  pure function returning the new slots and the effects in order (`kill`
  calls, printed messages, `exit`): `makefg`, one step of the
  `sigchld_handler` loop and the whole loop, `sigint_handler`,
  `sigtstp_handler`, `sigquit_handler`, and the slot bookkeeping `eval` does
  after `fork`.
- `JobControlProps` (`jobs_props.dfy`) — an invariant on the slots that all
  transitions keep, `makefg` undoing itself, reaping in batches, and the
  life of one job (run, interrupt, stop, resume).
- `Shell` (`shell.dfy`) — `builtin_cmd`, `waitfg` and `eval`. The signals
  that arrive while `waitfg` sleeps are a sequence of events; the result of
  `fork` is a parameter. An outcome says whether the command returned to the
  prompt, is still waiting when the events run out, or ended the shell.
- `ShellProps` (`shell_props.dfy`) — `waitfg` equals an independent replay
  of the events it consumed and stops at the first moment the foreground
  slot is empty; `eval` keeps the slot invariant; what `eval` does with
  blank lines, `quit`, `fg`, background and foreground commands.

Signal numbers are the Linux values (SIGINT 2, SIGQUIT 3, SIGCONT 18,
SIGTSTP 20). `waitpid` is called without `WUNTRACED`, so a reaped child
either exited or was killed by a signal.

Behaviour of `parseline` that is easy to misread:
- An unterminated quote does not make the rest of the line one argument: the
  `strchr` for the closing quote returns NULL, the loop ends, and everything
  from the quote on is dropped (`TokenizerProps.ScanUnterminatedQuote`,
  `TokenizerProps.ParseLineUnclosedQuoteExample`).
- The background marker is any last argument whose first character is `&`
  (`&x` counts too), not only a lone `&`.
- `parseline` does not need the line to end in a newline: it overwrites
  whatever the last character is, so `Tokenizer.ParseLine` only requires a
  non-empty line.

Behaviour worth knowing that the model states rather than changes:
`sigchld_handler` only ever clears the foreground slot, so a suspended job
that is reaped (killed from outside) leaves its pid in the suspended slot,
and a later `fg` sends SIGCONT to that group
(`JobControlProps.ReapedSuspendedJobStays`). Once that pid is free, `fork`
may hand it out again: the new foreground job then equals the suspended
one, and ctrl-z swaps it with itself: it is sent SIGTSTP and then, by the
`makefg` swap, SIGCONT, so ctrl-z has no lasting effect on that job and it
stays in the foreground (`JobControlProps.StaleSlotPidReuse`). The slot invariant is therefore
proved only for a `fork` that does not return the pid in the suspended
slot.

## Model

| member | source | states |
|---|---|---|
| Tokenizer.IndexOf | shell.c:161-168 | `strchr`: a found position holds the character and no earlier position does; nothing is found exactly when the character does not occur |
| Tokenizer.SkipSpaces | shell.c:155-156 | only spaces are dropped, and what remains is empty or starts with a non-space (that what remains is the rest of the input is `TokenizerProps.SkipSpacesSuffix`) |
| TokenizerProps.SkipSpacesSuffix | shell.c:155-156 | skipping spaces keeps the rest of the line: the result is exactly the input after the dropped leading spaces |
| Tokenizer.Stage | shell.c:153-154 | the staged copy has the length of the line, keeps every character but the last, and ends in a space in place of the last character |
| Tokenizer.ParseLine | shell.c:189-199 | `argv` is the scanned arguments with at most the last one removed; it is removed exactly when it starts with `&`; the flag is set exactly when there is no argument or the last one starts with `&`. The scanning loop of lines 159-188 is modelled by `Scan`, `ScanToken` and `ScanUntil`, which have no contract of their own; their meaning is stated by the `TokenizerProps` lemmas. `IsMarker` is the test of line 195 and has no contract of its own |
| TokenizerLoop.NextSpan | shell.c:155-169 | after skipping spaces and an opening quote, the argument start and the `strchr` result describe exactly the arguments still to be scanned |
| TokenizerLoop.ParseLineLoop | shell.c:144-200 | the C pointer walk (stage, skip, `strchr`, cut, repeat, then the blank-line and `&` rules) returns exactly `Tokenizer.ParseLine` |
| TokenizerProps.ScanLeadingSpaces | shell.c:155-156 | spaces before the first argument change nothing |
| TokenizerProps.ScanWord | shell.c:166-177 | a word without spaces or a leading quote, followed by a space, is one argument, and scanning resumes after the space |
| TokenizerProps.ScanQuoted | shell.c:179-183 | a quoted span without inner quotes is one argument, spaces included, quotes stripped, and scanning resumes after the closing quote |
| TokenizerProps.ScanEmptyQuotes | shell.c:161-174 | two adjacent quotes give one empty argument, and scanning resumes after them |
| TokenizerProps.ScanUnterminatedQuote | shell.c:171-188 | after an opening quote with no closing quote no further argument is produced |
| TokenizerProps.ParseLineUnclosedQuoteExample | shell.c:179-188 | `echo 'a b` followed by a newline parses to `echo` alone, in the foreground |
| TokenizerProps.ScanSplitsOnSpaces | shell.c:166-188 | on text without quotes ending in a space, the arguments are exactly the non-empty pieces between spaces, in order |
| TokenizerProps.TokensSplitOnSpaces | shell.c:153-188 | for a line without quotes before its last character, the arguments are the non-empty space-separated pieces of the staged copy |
| TokenizerProps.ParseLineBlank | shell.c:191-192 | a line of spaces (or only a newline) gives no argument and the background flag |
| TokenizerProps.ScanRenderable | shell.c:171-188 | every argument is a word without spaces that does not start with a quote, or a span without quotes |
| TokenizerProps.ScanUnparse | shell.c:171-188 | printing such arguments separated by spaces, quoting the ones that need it, and scanning the result gives them back |
| TokenizerProps.StageCommandLine | shell.c:154 | overwriting the newline of a printed command line with a space gives the printed arguments each followed by a space |
| TokenizerProps.ParseLineRoundTrip | shell.c:144-200 | a line printed from arguments and a flag parses back to exactly those arguments and that flag |
| TokenizerProps.ParseLineReparse | shell.c:144-200 | printing what was parsed and parsing it again gives the same result |
| JobControl.MakeFg | shell.c:400-406 | the slots are exchanged; SIGCONT goes to the group that becomes the foreground job, and is sent exactly when the suspended slot was occupied |
| JobControl.Reap | shell.c:278-282 | the foreground slot empties exactly when the reaped pid is the foreground job; the suspended slot never changes; the notice is printed exactly for the foreground job killed by SIGINT |
| JobControl.SigChld | shell.c:271-284 | after reaping a batch, the foreground slot is empty exactly when the foreground job is in it; the suspended slot is unchanged; at most one notice, printed exactly when the first report of the foreground job says SIGINT killed it |
| JobControl.SigInt | shell.c:291-296 | with no foreground job nothing happens; otherwise SIGINT goes to the foreground group; the slots never change |
| JobControl.SigTstp | shell.c:303-310 | with no foreground job nothing happens; otherwise the stop notice, SIGTSTP to the foreground group, and the `makefg` swap, in that order |
| JobControl.SigQuit | shell.c:359-364 | prints the notice and exits with status 1 |
| JobControl.Launch | shell.c:231-253 | a failed fork prints the error and exits with status 1; a foreground child fills the foreground slot; a background child is announced with its pid and command line and leaves the slot empty; the suspended slot is untouched |
| JobControlProps.MakeFgInvolution | shell.c:400-406 | two `makefg` calls restore the slots, continuing first the suspended job and then the former foreground job |
| JobControlProps.TransitionsKeepValid | shell.c:60-63 | every transition keeps pids non-negative and the foreground job distinct from the suspended one, provided `fork` does not return the pid held in the suspended slot |
| JobControlProps.SigChldSplit | shell.c:277-283 | reaping a batch in two handler calls has the same slots and effects as reaping it in one |
| JobControlProps.SigChldTwice | shell.c:277-283 | reaping the same child again changes nothing |
| JobControlProps.ForegroundLifecycle | shell.c:248-282 | a foreground child fills the slot, and reaping it after a normal exit empties it silently |
| JobControlProps.InterruptThenReap | shell.c:277-296 | ctrl-c sends SIGINT to the foreground group; reaping it as killed by SIGINT prints the notice and empties the slot |
| JobControlProps.SuspendThenResume | shell.c:303-310 | ctrl-z swaps the stopped job into the suspended slot; a following `makefg` continues it and restores both slots |
| JobControlProps.SuspendWithNothingSuspended | shell.c:303-310 | ctrl-z with nothing suspended prints the notice, stops the group, leaves the foreground empty and sends no SIGCONT |
| JobControlProps.ReapedSuspendedJobStays | shell.c:277-283 | reaping the suspended job leaves its pid in the suspended slot, and `makefg` then sends it SIGCONT |
| JobControlProps.StaleSlotPidReuse | shell.c:248-309 | after the suspended job is reaped, a `fork` returning its pid makes the foreground and suspended slots equal, and ctrl-z then leaves the job in the foreground, sending it SIGTSTP and at once SIGCONT |
| JobControlProps.ReapBeforeFgSwap | shell.c:272-283 | when the suspended job is reaped between `makefg`'s `kill` and its swap (lines 401-405), nothing is cleared and the swap puts the dead pid in the foreground slot; reports of other children and ctrl-c keep it there, and only ctrl-z moves it out |
| ShellProps.WaitFgOnReapedPid | shell.c:370-375 | with the dead pid in the foreground slot, `waitfg` consumes every ctrl-c and every report of other children and is still asleep, with the slots unchanged, having only sent SIGINT to the dead group |
| Shell.Deliver | shell.c:118-121 | each signal runs exactly the handler installed for it (SIGINT `sigint_handler`, SIGTSTP `sigtstp_handler`, SIGCHLD `sigchld_handler`, SIGQUIT `sigquit_handler`), and only SIGQUIT ends the shell |
| Shell.WaitFg | shell.c:370-375 | returns exactly when the foreground slot is empty, at once if it already is; still waits only with a foreground job and no event left; ends the shell only on SIGQUIT, with status 1, and a SIGQUIT it consumes is always the last event it consumes |
| Shell.BuiltinCmd | shell.c:382-393 | `quit` exits with status 0 and changes nothing; `fg` runs `makefg` and then `waitfg`; anything else is not a built-in |
| Shell.Eval | shell.c:207-257 | a line without arguments changes nothing; a failed fork exits with status 1; a background job is announced and `eval` returns at once; a foreground job with no event left is still waited for; after a command returns the foreground slot is empty |
| ShellProps.WaitFgIsReplay | shell.c:370-375 | `waitfg` ends in the state reached by running the handlers of the events it consumed, and before each of them the foreground slot was occupied |
| ShellProps.IdleEventsDoNothing | shell.c:370-375 | with the foreground slot empty, every handler except SIGQUIT's leaves the slots unchanged and does nothing, so further handlers run in the same `sigsuspend` change nothing |
| ShellProps.BuiltinFgIsReplay | shell.c:387-391 | `fg` sends `makefg`'s SIGCONT first, then ends in the replay of the consumed events from the swapped slots, stopping at the first one that empties the foreground slot |
| ShellProps.EvalForegroundIsReplay | shell.c:248-257 | a foreground command ends in the replay of the consumed events from the slots holding the child, stopping at the first one that empties the foreground slot |
| ShellProps.WaitFgKeepsValid | shell.c:370-375 | waiting keeps the slot invariant whatever signals arrive |
| ShellProps.EvalKeepsValid | shell.c:207-257 | `eval` keeps the slot invariant when `fork` does not reuse the suspended job's pid |
| ShellProps.EvalBlankLine | shell.c:213-217 | a blank line changes nothing and returns |
| ShellProps.EvalQuit | shell.c:382-386 | a typed `quit` line, with any arguments and even with `&`, exits with status 0 before forking |
| ShellProps.EvalBackground | shell.c:248-253 | a typed command with `&` is announced with the child's pid and the line, and `eval` returns with the foreground slot empty |
| ShellProps.EvalForegroundExits | shell.c:248-257 | a typed foreground command keeps waiting with the child in the foreground slot until its exit is reported, then returns having consumed that one event |
| ShellProps.EvalForegroundSuspended | shell.c:303-310 | ctrl-z during a foreground command, with nothing suspended, stops it, moves it to the suspended slot and lets `eval` return |
| ShellProps.EvalFgResumes | shell.c:387-391 | `fg` at the prompt continues the suspended job, moves it to the foreground slot and waits for it |

## Left out

- The system calls themselves (`fork`, `execvp`, `setpgid`, `kill`, `waitpid`, `sigsuspend`): `fork`'s result and the signals that arrive are parameters, and `kill` is an effect in the result.
- Signal masking with `sigprocmask` and the `SIGCHLD`/`SIGINT`/`SIGTSTP` block around `fork`: the model runs each handler to completion and checks the foreground slot after each one. The real shell may run several pending handlers inside one `sigsuspend` before its next check; this gives the same slots and effects, because once the slot is empty every handler but SIGQUIT's does nothing (`ShellProps.IdleEventsDoNothing`). Events the model leaves unconsumed are the ones the real shell handles in that same wakeup or later, with the foreground slot already empty. A SIGQUIT during the masked window is not modelled separately.
- The order at the end of `eval`, which waits for the foreground job before restoring the signal mask: the model has no mask, so this ordering is not represented.
- The child's side of `fork` (`setpgid`, `execvp` and the "Command not found" message): the parent only sees the child's exit, which is an event.
- `Signal`, `unix_error`, `app_error` and `main` (handler installation, the prompt, `fgets`, `dup2`, flushing): installation and I/O, not job-control logic.
- Message formatting with `printf`: messages are values that carry the pid, the signal or the command line they print.
- `MAXLINE` and `MAXARGS`: `fgets` reads at most 1023 characters, so a longer line reaches `eval` in pieces and only the last piece ends in a newline (`Tokenizer.ParseLine` does not require one, so each piece is modelled as it is parsed); the line buffers never overflow. `argv` has 128 entries and overflows on a line with more than 127 arguments; the model has no bound on the number of arguments.
- A NUL character inside the line: a `seq<char>` stands for the characters before the C string's terminator.
- The `fg` built-in waits with signals unmasked: the model treats it like the foreground wait in `eval`, one handler run per event. In the real shell a SIGCHLD that arrives between the `while (g_runningPid)` test and `sigsuspend` (shell.c:373-374) is handled before the shell sleeps, and the shell then sleeps until some other signal arrives. A SIGCHLD for the suspended job that arrives between `makefg`'s `kill` and its swap of the slots (shell.c:402-405), when `fg` runs from the prompt, is handled while the foreground slot is still empty, so nothing is cleared and the swap then puts the reaped pid in the foreground slot; no later report names that pid, and ctrl-c does not touch the slots, so the wait ends only at ctrl-z or SIGQUIT. The model runs each handler between whole transitions and has neither window, so these lost wakeups are not represented; what happens once the dead pid is in the foreground slot is stated by `JobControlProps.ReapBeforeFgSwap` and `ShellProps.WaitFgOnReapedPid`.
- Tokenizer.ParseLine: does not describe the arguments beyond their relation to `Scan`; the meaning of `Scan` is given by the lemmas of `TokenizerProps`.
