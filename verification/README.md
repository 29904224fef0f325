# Verification of GravelBox

GravelBox runs a program under ptrace, renders each of its system calls as one line of text, and lets a
configuration, the user and a password decide whether the call may run. This project models its core in Dafny
and proves what it is for: no call runs without a decision about that very call, a denied call runs nothing,
threads cannot influence each other through the tracer, the line the user is asked about determines the call,
and the dialog with pinentry cannot get out of step. Check it with `dafny verify dfyconfig.toml`.

## How it is organised

| files | part of GravelBox |
|---|---|
| `Kernel.dfy` | what threads do by themselves and what ptrace and waitpid answer |
| `TracerLoop.dfy`, `Tracer.dfy` | `run_with_callbacks`: the loop as a function of a schedule, and as the objects that update a map in place |
| `TracerSafety.dfy`, `TracerTheorems.dfy` | the simulation invariant; mediation of every call in every run |
| `TracerLifecycle.dfy` | the map's life cycle; every reported stop is answered by one resume of that thread |
| `TracerIndependence.dfy`, `TracerBirth.dfy`, `TracerCommutation.dfy` | threads do not influence each other, from their birth on; adjacent turns commute |
| `Numerals.dfy`, `OStream.dfy`, `RemoteMemory.dfy`, `Escapes.dfy`, `ArgTypes.dfy` | numbers, the stateful stream, `process_vm_readv`, escapes, the argument writers |
| `SyscallDefs.dfy`, `Parser.dfy`, `LineReader.dfy`, `LineCodec.dfy`, `ParserTheorems.dfy` | definitions, the parser, a reader of its lines, and what a line determines |
| `Pinentry.dfy`, `PinentryReplies.dfy`, `PinentrySession.dfy` | the conversation with pinentry, what its replies count as, and its lockstep |
| `Config.dfy`, `Hex.dfy`, `Dialogs.dfy`, `Decision.dfy`, `Startup.dfy` | configuration, the syscall callback, the start-up gate |
| `MaskedEditor.dfy` | the masked password editor |
| `DialogSafety.dfy`, `Sandbox.dfy` | the parts together: rendered calls and the dialog, and what a whole run executes |

A run of the tracer is a list of turns. In a turn waitpid reports one thread and the tracer handles it; before
each of its ptrace requests any thread may act (`Gaps`), and between turns too (`Env`). A statement about all
lists of turns is therefore a statement about every interleaving. Decisions are an arbitrary function of
everything observed so far. Imperative code is modelled by classes and loops whose contracts equate the new
state with a function of the old state; the lemmas are about those functions, and state what they compute by
references of their own: readers for what is printed, spellings for what is read, positions in lists.

## What is assumed of the environment

- A thread alternates entry and exit stops until it dies; it may die at any moment, stopped or running, also
  between two requests of the tracer.
- The first stop of a new thread is its SIGSTOP.
- A ptrace request fails only with ESRCH, and only on a thread that is not held in a reported stop.
- No pid is used twice; a multi-threaded execve does not change thread ids; resumes deliver no signal.
- Entering a call with -1 in orig_rax runs nothing and leaves -ENOSYS in rax.
- Memory is mapped by whole pages, and process_vm_readv transfers an iovec completely or not at all.
- Regular expressions, HMAC and the JSON decoder are parameters or precede the model.
- The pinentry server closes each reply with one OK line or one ERR line with something after it (libassuan
  manual, section 2.2). On an ERR line with nothing but blanks the source reads an uninitialised variable; the
  model ends with `IndeterminateCode` there.

## What the code does not do

- Lines with two or more `char*` arguments do not determine their arguments, because quotes are not escaped:
  `LineCodec.LosslessIff` gives the exact condition, `LineCodec.TwoStringsCollide` the colliding calls. In the
  shipped definitions this concerns rename, link and symlink. Such a line still determines the name and number
  (`ParserTheorems.LineDeterminesCall`, whose hypothesis the shipped definitions meet: 51 distinct names).
- `Parser::operator()` is `noexcept`, but reading a string argument throws when the process is gone (ESRCH is
  not EFAULT), and a definition with more than six parameters fails an assertion. `ParserTheorems.RenderFailsIff`
  says for which definitions and calls this ends the program, `ParserTheorems.DeadProcessHasNoLine` gives one.
- An ERR line whose code cannot be read, or is 0, counts as success, so such a refusal grants the call
  (`PinentrySession.UnreadableErrorConfirms`). `PinentryReplies.AcceptedIff` says exactly which closing lines
  count as success, and `PinentrySession.ConfirmMeansOkIff` when true means that the server said OK.
- `verify_password` is documented to succeed when there is no password; it does what is documented exactly when
  there is one (`Config.NoPasswordNeverVerifies`, `Config.VerifyMeetsCommentIff`). Its only caller asks
  `has_password` first.
- `hex2bytes` accepts more than hex digits (`Hex.NegativePairAccepted`); `Hex.EncodeDecodeIff` says exactly when
  nothing is lost.
- The documented `max-string-length` setting is not used by the renderer, which always reads 32 bytes.

## Model

| member | source | states |
|---|---|---|
| TracerSafety.LetKeeps | src/trace/tracer.cpp:106-157 | whatever any thread does by itself, between turns or during one, keeps the map in agreement with the kernel |
| TracerSafety.ContinueKeeps | src/trace/tracer.cpp:160-169 | the final PTRACE_SYSCALL of a turn restores the invariant, or ESRCH hit a dead thread |
| TracerSafety.RewriteKeeps | src/trace/tracer.cpp:132-149 | rewriting orig_rax on entry or rax on exit keeps the invariant even when the thread dies between the two requests |
| TracerSafety.OnEntryKeeps | src/trace/tracer.cpp:109-143 | an entry stop always satisfies the ENTRY assertion, and every answer of the callback leads back to the invariant or ends the loop |
| TracerSafety.TakeKeeps | src/trace/tracer.cpp:89-171 | one turn, under any interference, keeps the simulation invariant or ends the loop without a failed lookup or assertion |
| TracerSafety.PlayKeeps | src/trace/tracer.cpp:89-171 | the same over every list of turns |
| TracerTheorems.SimulationInvariant | src/trace/tracer.cpp:83-171 | in every run the map agrees with every living thread's phase at the loop head; `at(child)` never throws and the entry assertion never fails |
| TracerTheorems.MapAgreesWithKernel | src/trace/tracer.cpp:108-157 | for each living thread at each loop head: USERSPACE iff not inside a call, ALLOW or DENY iff inside one with that decision, and the kernel can run the call iff it was allowed |
| TracerTheorems.ExecutedOnlyIfApproved | src/trace/tracer.cpp:106-131 | every executed call was approved, with that number and those arguments, by the callback's latest answer about that thread |
| TracerTheorems.ApprovalServesOnce | src/trace/tracer.cpp:106-157 | a thread never executes a call more often than it was approved |
| TracerTheorems.DeniedReturnsEperm | src/trace/tracer.cpp:132-151 | after a refusal the thread's next observable step, if it survives, is to see -EPERM: nothing ran |
| TracerTheorems.ReturnsAreExplained | src/trace/tracer.cpp:144-156 | user space sees the executed call's own result, -EPERM for a refused call, -ENOSYS for an approved call numbered -1, and nothing else |
| TracerLifecycle.OnStopSpends | src/trace/tracer.cpp:99-170 | a turn on a stop of p ends with exactly one resume of p, or one ESRCH on p, which is then dead; it adds a thread to the map only on SIGSTOP |
| TracerLifecycle.MapLifecycle | src/trace/tracer.cpp:85-98 | the map is non-empty at the loop head and holds exactly the registered threads whose exit was not reported; the loop returns on the exit that empties it, with its status, or 128 plus the signal that killed |
| TracerLifecycle.EveryStopResumedOnce | src/trace/tracer.cpp:88-170 | after every turn and for every thread: it was resumed exactly as often as its stops were reported, less one if it was lost to ESRCH, and then it is dead; no living thread is left held |
| TracerIndependence.TakeView | src/trace/tracer.cpp:88-161 | a turn of the system is, to each thread, its own share of that turn run by a one-thread automaton |
| TracerIndependence.Independence | src/trace/tracer.cpp:88-161 | until the loop returns, the state, status and history of a thread that exists are those of the one-thread automaton on its share of the schedule, though the parser target is shared |
| TracerIndependence.InterleavingDoesNotMatter | src/trace/tracer.cpp:88-161 | two schedules with the same share for a thread are indistinguishable to it |
| TracerBirth.TakeHatches | src/trace/tracer.cpp:99-104 | a turn in which a thread is created leaves it newborn, unknown to the tracer and without history, up to its own later actions |
| TracerBirth.BornIndependence | src/trace/tracer.cpp:88-161 | a thread created during turn i is, from its birth on, the one-thread automaton started as a newborn thread |
| TracerBirth.EveryThreadIndependent | src/trace/tracer.cpp:83-161 | over a whole run from the start, every thread is independent of all others: the first from the beginning, each other from its birth |
| TracerCommutation.TakeAdds | src/trace/tracer.cpp:88-170 | the threads created, resumes, losses and reports of a thread's turn depend on that thread's own view only |
| TracerCommutation.AdjacentTurnsCommute | src/trace/tracer.cpp:88-170 | adjacent turns of two registered threads commute unless the pair empties the map: same map, same threads (those created in the pair included), same histories of each, same resumes, losses and reports |
| Tracer.Ptrace.Elapse | src/trace/tracer.cpp:90 | threads act while the tracer is not looking |
| Tracer.Ptrace.WaitPid | src/trace/tracer.cpp:90 | a pending stop is reported once, an exit is reaped |
| Tracer.Ptrace.GetSyscallInfo | src/trace/tracer.cpp:111-114 | entry stops report the number in orig_rax and the arguments; ESRCH otherwise |
| Tracer.Ptrace.GetRegs | src/trace/tracer.cpp:133-135 | registers of a held thread; ESRCH otherwise |
| Tracer.Ptrace.SetRegs | src/trace/tracer.cpp:137-138 | replaces the registers of a held thread; ESRCH otherwise |
| Tracer.Ptrace.Syscall | src/trace/tracer.cpp:160 | resumes a held thread; ESRCH otherwise |
| Tracer.Tracer.constructor | src/trace/tracer.cpp:85-86 | the map starts with the child in user space |
| Tracer.Tracer.SetPid | src/trace/tracer.h:71 | aims the parser at the thread |
| Tracer.Tracer.SyscallCallback | src/trace/tracer.cpp:117-129 | the decision is about the thread the parser is aimed at, and enters the history |
| Tracer.Tracer.ReplaceRegister | src/trace/tracer.cpp:132-149 | orig_rax := -1 on entry, rax := -EPERM on exit, with the status update skipped on ESRCH |
| Tracer.Tracer.SyscallStop | src/trace/tracer.cpp:106-158 | the new state is that of `OnSyscallStop`, on every branch |
| Tracer.Tracer.LoopBody | src/trace/tracer.cpp:90-170 | the new state is that of `Iterate`: exit, registration, syscall stop, other stop |
| Tracer.Tracer.Run | src/trace/tracer.cpp:89-171 | the loop computes `Play` of the schedule |
| Tracer.RunWithCallbacks | src/trace/tracer.cpp:83-172 | a session never fails a lookup or an assertion, returns the status (or 128 plus the signal) of the last reported exit, and every call that ran was approved just before for that thread |
| Numerals.NumeralRoundTrip | src/parser/argtypes.cpp:15-40 | a number printed in base 10 or 16 parses back |
| Numerals.NaturalExact | src/parser/argtypes.cpp:15-40 | a number has exactly one text in base 10 or 16, and only that text reads as it |
| Numerals.SignedExact | src/parser/argtypes.cpp:19-29 | the same for signed decimals: an optional minus sign and a numeral |
| Numerals.SignedInjective | src/parser/argtypes.cpp:19-29 | signed decimal text determines the number |
| OStream.Stream.Put | src/parser/argtypes.cpp:85-86 | an insertion is padded to the pending width, which then expires; radix and fill stay |
| OStream.Stream.PutUnsigned | src/parser/argtypes.cpp:32 | digits in the sticky radix |
| OStream.Stream.PutSigned | src/parser/argtypes.cpp:20 | signed decimal, or two's complement in hexadecimal |
| RemoteMemory.SplitCovers | src/parser/argtypes.cpp:44-53 | for every address, wrapping included, and 1 to 4096 bytes: the iovecs are non-empty, each within one page, and cover the addresses in order |
| RemoteMemory.PrefixIsLongest | src/parser/argtypes.cpp:54-65 | the byte-wise read is the longest run of mapped addresses from the start, with their contents |
| RemoteMemory.PrefixStep | src/parser/argtypes.cpp:54-57 | reading byte by byte past a readable stretch yields that stretch and continues behind it |
| RemoteMemory.SplitReadIsPrefix | src/parser/argtypes.cpp:44-65 | the split read returns exactly the longest mapped prefix |
| RemoteMemory.ProcessVmReadv | src/parser/argtypes.cpp:54-65 | fills the buffer with what is transferred; EFAULT iff nothing is; ESRCH iff the process is gone |
| Escapes.UnescapeFirst | src/parser/argtypes.cpp:71-88 | each escape is uniquely readable whatever follows, though low bytes print two digits and high bytes four |
| Escapes.EscapeRoundTrip | src/parser/argtypes.cpp:66-90 | decoding an escaped string gives back its bytes |
| Escapes.EscapeExact | src/parser/argtypes.cpp:66-90 | each byte string has exactly one escaped text: short forms, printable bytes as they are, two digits for control characters, ff and two digits from 0x80 up |
| ArgTypes.WriteByte | src/parser/argtypes.cpp:71-88 | one byte through hex, setfill and setw prints its escape whatever the stream's state was |
| ArgTypes.WriteUnknown | src/parser/argtypes.cpp:15-17 | bracketed hexadecimal, whatever the stream's radix was |
| ArgTypes.WriteDecimal | src/parser/argtypes.cpp:19-33 | the value at its type's width, in decimal whatever the radix was |
| ArgTypes.WritePtr | src/parser/argtypes.cpp:35-40 | NULL or hexadecimal |
| ArgTypes.ReadString | src/parser/argtypes.cpp:43-65 | the longest mapped prefix of the buffer's length; fault iff it is empty |
| ArgTypes.WriteBody | src/parser/argtypes.cpp:67-89 | escapes exactly the bytes before the first NUL |
| ArgTypes.WriteQuoted | src/parser/argtypes.cpp:66-92 | quotes, and an ellipsis iff all 32 bytes were printed |
| ArgTypes.WriteStr | src/parser/argtypes.cpp:42-93 | the text of the string at the address, or failure iff the process is gone |
| ArgTypes.Write | src/parser/argtypes.h:59-62 | no format state leaks: the appended text is that of the argument alone |
| SyscallDefs.SyscallDef.AddParam | src/parser/syscalldef.h:45 | appends a parameter type |
| SyscallDefs.SyscallDef.WriteParams | src/parser/syscalldef.h:58-62 | arguments separated by commas, each as if printed alone |
| SyscallDefs.SyscallDef.Write | src/parser/syscalldef.h:54-64 | name and arguments; fails iff there are more than six parameters or a string is needed from a process that is gone |
| Parser.Parser.BuildDef | src/parser/parser.cpp:37-49 | the signature of one definition, or its unknown type name |
| Parser.Parser.Load | src/parser/parser.cpp:34-54 | succeeds iff all type names are known and no number repeats; the table is then exactly the definitions |
| Parser.Parser.SetPid | src/parser/parser.h:45 | sets the target |
| Parser.Parser.WriteFallback | src/parser/parser.cpp:60-64 | head, decimal number and six hexadecimal registers |
| Parser.Parser.Apply | src/parser/parser.cpp:58-69 | the line is `Render` of the table, the call and the current target |
| LineReader.TextExact | src/parser/argtypes.cpp:15-93 | a reader of the format inverts printing in both directions, for every type: brackets, NULL, decimals, fault, quotes and ellipsis |
| LineReader.FieldsOfJoin | src/parser/syscalldef.h:57-63 | joined arguments are recovered when all but one are free of separators |
| LineReader.LineReadsBack | src/parser/syscalldef.h:54-64 | with at most one `char*`, the name and every argument are read back from the line |
| LineCodec.JoinInjective | src/parser/syscalldef.h:57-63 | joined arguments can be told apart when all but one are free of separators |
| LineCodec.TextInjective | src/parser/argtypes.cpp:15-93 | an argument's text determines its value at the type's width, the string, the fault and the ellipsis |
| LineCodec.LineInjective | src/parser/syscalldef.h:54-64 | with at most one `char*`, the line determines the name and every argument |
| LineCodec.Realised | src/parser/argtypes.cpp:42-93 | every list of argument meanings occurs for some registers and some memory |
| LineCodec.TwoStringsCollide | src/parser/argtypes.cpp:66-92 | two `char*` parameters: two different calls print the same line |
| LineCodec.LosslessIff | src/parser/syscalldef.h:54-64 | over all registers and memories, the line determines every argument iff the definition has at most one `char*`, whatever its name |
| ParserTheorems.FallbackInjective | src/parser/parser.cpp:60-64 | the fallback line determines the interface, the number and all six registers |
| ParserTheorems.FallbackReadsBack | src/parser/parser.cpp:60-64 | the fallback line reads back as the call: `syscall` or, from the 32-bit interface, `syscall32`, the number and six registers |
| ParserTheorems.RenderedReadsBack | src/parser/parser.cpp:58-69 | a rendered line reads back: as the call without a definition or from the 32-bit interface, otherwise as the definition's name and the meaning of each argument |
| ParserTheorems.TypeNamesMean | src/parser/parser.h:57-60 | for each type name of the definition file, what of the register it shows and in which form |
| ParserTheorems.LineDeterminesCall | src/parser/parser.cpp:58-69 | across a table with distinct names, equal lines come from the same definition and number, with the same arguments up to the width of their types if at most one is a `char*`; or from the same call without a definition |
| ParserTheorems.RenderFailsIff | src/parser/parser.cpp:58-69 | rendering ends the program iff the call's definition has more than six parameters, or a `char*` while the process is gone |
| ParserTheorems.DeadProcessHasNoLine | src/parser/argtypes.cpp:54-65 | open, as shipped, of a process killed after its entry stop was reported: no line |
| ParserTheorems.RenderedIsPrintable | src/parser/argtypes.cpp:66-90 | no control character reaches a line, whatever the process's registers and memory hold |
| Pinentry.PinentryConn.Recv | src/ui/pinentry_conn.cpp:23-45 | consumes up to the first OK or ERR line; the last D line is the data; the code is read past blanks and a sign, with wrap-around and saturation; anything unknown throws |
| Pinentry.PinentryConn.ExpectOk | src/ui/pinentry_conn.h:166-170 | a response with a non-zero code throws |
| Pinentry.PinentryConn.Command | src/ui/pinentry_conn.h:64-65 | one command line, then its response |
| Pinentry.PinentryConn.OpenConn | src/ui/pinentry_conn.cpp:15-21 | greeting, then the title |
| Pinentry.PinentryConn.CloseConn | src/ui/pinentry_conn.h:51-54 | BYE, then its response |
| Pinentry.PinentryConn.ConfirmMessage | src/ui/pinentry_conn.h:63-77 | three set-up commands, then CONFIRM: yes, cancel, or an exception |
| Pinentry.PinentryConn.GetPassword | src/ui/pinentry_conn.h:113-134 | four or five set-up commands, then GETPIN: the data, cancelled, or an exception |
| PinentryReplies.ReceiveReply | src/ui/pinentry_conn.cpp:23-45 | reading consumes exactly one reply, whatever follows it, and answers from its closing line and its last D line |
| PinentryReplies.ErrLineMeans | src/ui/pinentry_conn.cpp:30-36 | the code and text read from an ERR line, by its spelling: blanks, sign, digits, rest |
| PinentryReplies.CarriesIff | src/ui/pinentry_conn.cpp:24-38 | the text of a successful reply is that of its last D line, or empty without one; after a zero code on an ERR line, what follows it |
| PinentryReplies.StrayLineThrows | src/ui/pinentry_conn.cpp:41-43 | a line of no known kind throws, and so does the end of input |
| PinentryReplies.AcceptedIff | src/ui/pinentry_conn.cpp:28-37 | by its closing line, a reply is a success iff that is OK or has no digit other than 0 where the code should be, and a cancel iff the digits are 83886179 (or its negative modulo 2 to the 32) |
| PinentrySession.SetupAdvances | src/ui/pinentry_conn.h:63-69 | a set-up succeeds iff each of its own replies does, and reads one reply per command |
| PinentrySession.QuestionOwnAnswer | src/ui/pinentry_conn.h:63-77 | an operation in lockstep is answered by the reply to its own question, and stays in lockstep iff its message has no newline |
| PinentrySession.ConfirmOwnAnswer | src/ui/pinentry_conn.h:70-76 | `confirm` returns the answer to its own CONFIRM: true iff that closing line is OK or names no error, false iff it is a cancel |
| PinentrySession.ConfirmMeansOkIff | src/ui/pinentry_conn.h:70-76 | true means the server said OK iff an ERR line, if that was the reply, names an error |
| PinentrySession.UnreadableErrorConfirms | src/ui/pinentry_conn.cpp:30-36 | the refusal `ERR refused` confirms |
| PinentrySession.GetPinOwnAnswer | src/ui/pinentry_conn.h:113-134 | `getpin` sends its commands as spelt and returns the text of the last D line in the reply to its own GETPIN, or cancelled |
| PinentrySession.LockstepIff | src/ui/pinentry_conn.h:51-134 | the server gets ahead by exactly the number of newlines inside commands |
| PinentrySession.SessionLockstep | src/ui/pinentry_conn.h:51-134 | any session of operations reads one reply per command and is in lockstep iff no command contains a newline |
| Config.FirstMatchWins | src/config/file_config.cpp:127-135 | the first matching group decides, otherwise the default |
| Config.WordExact | src/config/file_config.cpp:50-58 | allow, deny and ask are read as the actions they spell, and nothing else is read |
| Config.WordDecides | src/config/file_config.cpp:127-135 | after loading, the action for a line is spelt by the first group of the file with a matching pattern, or by the default |
| Config.FileConfig.Load | src/config/file_config.cpp:78-98 | accepted iff the password is empty or 64 readable bytes and every action is one of the three words; each action is the one its word spells |
| Config.FileConfig.GetAction | src/config/file_config.cpp:127-135 | the nested loops compute the first match |
| Config.FileConfig.VerifySignature | src/config/file_config.cpp:106-125 | stores the key; clears the text iff the HMAC of the text under the key is the signature; an unusable signature file throws |
| Config.FileConfig.DismissSignature | src/config/file_config.h:73 | clears the text |
| Config.FileConfig.RemovePassword | src/config/file_config.h:78 | clears the password hash |
| Config.NoPasswordNeverVerifies | src/config/file_config.h:98-100 | without a password, verification fails, against its comment |
| Config.VerifyMeetsCommentIff | src/config/file_config.h:90-100 | verification does what its comment says (true if the HMAC is the stored hash, or there is none) iff there is a password |
| Hex.Hex2Bytes | src/config/file_config.cpp:61-76 | fails iff the length is odd or a pair is unreadable; otherwise half as many bytes, pair by pair |
| Hex.PairExact | src/config/file_config.cpp:66-73 | a pair is worth exactly what stoul reads from its spelling: blanks, sign, hex digits, ignored rest |
| Hex.DecodeEncode | src/config/file_config.cpp:61-76 | decoding an upper- or lower-case encoding gives back the bytes |
| Hex.EncodeDecodeIff | src/config/file_config.cpp:66-73 | an accepted string is recovered by encoding iff it is lower-case hex |
| Hex.NegativePairAccepted | src/config/file_config.cpp:66-73 | `-1` is accepted and becomes the byte ff |
| Decision.Approver.AskPassword | src/trace/tracer.h:84-97 | the password loop runs until a correct entry or a cancel |
| Decision.Approver.Decide | src/trace/tracer.h:72-104 | the callback computes `Callback` of the rules, the line and the conversation |
| Decision.AskUntilDecides | src/trace/tracer.h:87-97 | a repeated dialog ends at its first attempt that is not a wrong entry |
| Decision.DecisionCharacterised | src/trace/tracer.h:73-104 | when the callback returns: true iff ALLOW, or ASK, the closing line of the reply to CONFIRM counts as success, and no password is set or an entry whose HMAC is the stored hash comes before any cancel |
| Decision.CallbackReturnsIff | src/trace/tracer.h:73-104 | exactly which replies make the callback return instead of throwing |
| Decision.PasswordDecides | src/trace/tracer.h:84-97 | with the hash of a password, and no collision with it: an accepted question is granted iff that password is entered, after other entries only |
| Decision.CallbackAsks | src/trace/tracer.h:79-97 | what a callback that asks has sent: the question with this line, then one password dialog per attempt, with its texts |
| Decision.WordsRule | src/trace/tracer.h:73-104 | from the words of the file: a line under allow is granted and one under deny refused without a word to the server, and one under ask is put to the user |
| Startup.AskKey | src/modules.cpp:31-40 | the key loop verifies each entry against the text as it was loaded |
| Startup.Start | src/modules.cpp:15-43 | the outcome and the settings are those of `Gate`, for every combination of options |
| Startup.GateOpensIff | src/modules.cpp:23-41 | tracing starts iff `-n` was given or some key whose HMAC of the text is the signature is entered before the first cancel |
| Startup.GateExact | src/modules.cpp:17-43 | exactly which replies and options start tracing, and which exit with failure; all others throw |
| Startup.SigningKeyDecides | src/modules.cpp:31-40 | with the key that signed the text and no collision with it: tracing starts with that key, iff it is entered after other keys only |
| Startup.KeyDialogAsks | src/modules.cpp:27-40 | the texts that the key dialog has shown, attempt by attempt |
| Startup.GateLeaves | src/modules.cpp:23-41 | the text is cleared; the stored key is the first that verified it; with `-n` no password remains |
| MaskedEditor.RuboutShows | src/ui/pwd.cpp:36 | backspace, blank, backspace removes one star from the line |
| MaskedEditor.Editor.GetCh | src/ui/pwd.cpp:11-25 | the next key; the line as shown at that moment is recorded |
| MaskedEditor.Editor.HandleKey | src/ui/pwd.cpp:34-42 | a key adds one character and one star, backspace removes both if there are any |
| MaskedEditor.Editor.GetPwd | src/ui/pwd.cpp:27-46 | the password is the fold of the keys, and whenever a key is awaited the line shows one star per character and then blanks |
| MaskedEditor.RuboutUndoes | src/ui/pwd.cpp:34-42 | typing and rubbing out leaves the password as it was |
| DialogSafety.StartIsSteady | src/modules.cpp:27-40 | an opened conversation is in lockstep, and still is after the key dialog |
| DialogSafety.RenderedCallsKeepLockstep | src/ui/pinentry_ui.cpp:49-53 | asking about a rendered call keeps the dialog in lockstep, whatever the traced process put into its memory |
| DialogSafety.WholeSessionKeepsLockstep | src/ui/pinentry_ui.cpp:49-53 | over any number of callbacks on rendered calls the dialog stays in lockstep as long as none throws |
| Sandbox.RunSteady | src/trace/tracer.h:69-104 | through a whole run, over one conversation and changing memories, the dialog is in lockstep after every decision |
| Sandbox.DecisionsAreAnswers | src/trace/tracer.h:69-104 | in every run, a call is approved iff the rules allow its line, or ask and the user's own answers grant it; when they ask, the server was shown this very line before the CONFIRM whose reply decided |
| Sandbox.ExecutedOnlyIfAuthorised | src/trace/tracer.cpp:106-131 | whatever executes was authorised by the decision just before it, on the line rendered from that thread's memory at that moment |
| Sandbox.DeniedLinesNeverRun | src/trace/tracer.h:99-100 | in every run, a call whose line the rules deny never executes, however the server behaves |

## Left out

- Spawning the child, its redirections and the first handshake (src/trace/tracer.cpp:41-84): foreign calls; a run starts after the first PTRACE_SYSCALL.
- A claim that no traced process is alive when the loop returns: a forked child that is not registered yet is invisible to the map, so return is stated for registered threads.
- Termination of the loop: a run is a finite list of turns, and statements hold after each of them.
- The class hierarchy of argument types is one datatype; the target pid is passed to the writers at the call instead of being read through a reference.
- ArgTypes.Write: starts from a stream without a pending field width, which is all the source gives it; any radix and fill are allowed.
- OStream.Stream.Put: only right-adjusted padding, no locale grouping, which the source never uses.
- Pinentry.PinentryConn.Recv: lines arrive whole; reading an uninitialised code is an outcome of its own, not a value.
- Percent-decoding of dialog texts and data: the code sends and keeps them as they are.
- Startup.Start: closing the key dialog when the configured one replaces it, and loading the definitions afterwards, are not part of the gate.
- Config.FileConfig.Load: JSON types, regular-expression syntax and the remaining settings (paths, max-string-length) precede or do not affect the model.
- MaskedEditor.Editor.GetPwd: end of input, on which the source would append bytes forever, is the end of the key list; line wrapping of the terminal is not modelled.
- The lock of the `Pwd` class, option parsing, the signing tool, the console and debug interfaces, the logger: they would only add easy members.
