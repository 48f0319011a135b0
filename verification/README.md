# Citadel libc: a verified model

Citadel libc is a C library written from scratch. This project models its self-contained algorithms in Dafny
and proves what they promise, over all inputs, all runs and all interleavings. `dafny verify dfyconfig.toml`
checks everything.

Each part states its subject first and the code afterwards. The subject is a definition a reader can judge
without the code: the relational meaning of a regular expression, the nearest number of a floating-point
format, the finite map behind a hash table, the plain file behind a buffered stream, the calendar, a text.
Code that updates things in place is a class or a method with loops, proved against that definition; shared
memory protocols are transition systems whose steps are the atomic operations of the code.

| part | files |
|---|---|
| regular expressions: compiler, lock-step matcher, backtracker | `RegexText`, `RegexProgram`, `RegexMeaning`, `RegexMachine`, `RegexGen`, `RegexPike`, `RegexBacktrack`, `RegexExec`, `RegexRefer`, `RegexLaws` |
| reading numbers | `Rounding`, `StrtodRound`, `StrtodBig`, `StrtodDecimal`, `StrtodExact`, `StrtodPaths`, `StrtodSticky`, `StrtodLong`, `StrtodMain`, `StrtodText`, `StrtodParse`, `StrtodClip`, `StrtodCase`, `StrtodGrammar` |
| printing numbers and the round trips | `PrintfDec`, `PrintfFormat`, `PrintfGeneral`, `PrintfHex`, `PrintfLaws`, `LongDouble`, `RoundTrip`, `RoundTripHex`, `RoundTripG` |
| locks, semaphores, conditions, barriers | `Threads`, `FutexLock`, `Semaphore`, `RwLock`, `Mutex`, `Barrier` |
| matching, containers, sorting | `FnmatchPattern`, `Fnmatch`, `FnmatchLaws`, `Hsearch`, `Ordering`, `AvlTree`, `AvlHeap`, `Qsort` |
| buffered streams | `Stdio`, `StdioStream`, `StdioRun` |
| calendar and time zones | `Calendar`, `CalendarLaws`, `Timezone`, `Mktime` |
| character conversions | `Utf8`, `Utf16`, `Uchar8`, `Iconv`, `IconvLaws`, `IconvRun`, `IconvCode` |
| shared | `Basics`, `Powers`, `Limbs` |

Conventions. A floating-point number is sign, integer significand and exponent, and its value is given in units
of the smallest number of its format. A hardware floating-point operation is the exact rational rounded once,
to nearest. Allocation succeeds. In the transition systems memory is sequentially consistent, waiting on a
futex compares and sleeps in one step, and a signal or a time-out may take a sleeper out at any time. The file
beneath a stream takes any part of what it is given, gives any part of what it is asked for, and may fail at any
time; its failures are counted, so that what a stream promises is promised of every run without one. The hash of
`hsearch_r`, comparison functions and `isatty` are parameters. Files named `Laws` tie the small definitions that
everything else is stated with to forms known from elsewhere: bits, tables, congruences, texts written out.

Five findings are stated, each with an input and the exact condition. A long double read from more than 800
digits can be misrounded (`StrtodLong.Misread`), exactly when the whole decimal crosses a half-way point above
the digits kept (`StrtodLong.LongTail`). An exponent of ten digits or more can be misread (`StrtodClip.ClipMisread`),
exactly when its first nine digits do not settle the matter (`StrtodClip.ClipExact`). `mktime(localtime(t))` can
differ from t (`Mktime.NotInverted`), in the zone of a TZ rule exactly when none of `mktime`'s probes sees t's kind
of time and daylight saving time is not an hour ahead (`Mktime.MktimeInverts`). After a byte is pushed back at the
start of a file, `ftell` gives -1 and `fflush` cannot keep that position (`StdioRun.PushAtStart`), which is the
only such case in a file that can seek (`StdioStream.Stream.Fflush`). With FNM_CASEFOLD `[Z-a]` does not match A,
although it contains a, and `[@-Z]` matches an opening bracket (`FnmatchLaws.FoldedExamples`); a range is right
exactly when both its ends are upper case or neither is, or they lie so that folding them loses and adds nothing
(`FnmatchLaws.FoldedRange`).

## Model

| member | source | states |
|---|---|---|
| RegexProgram.SaturationExact | src/regex.c:584-601 | saturating in subtrees never changes the verdict: `size_of` is the true instruction count when that is within MAX_INST and MAX_INST + 1 otherwise |
| RegexProgram.ProgramTargets | src/regex.c:609-684 | every jump of a generated program lands inside the program and never on its first instruction; MATCH is last, and the span is saved by the first instruction and the last but one |
| RegexMeaning.RelMatches | src/regex.c:640-660 | forgetting captures: whatever the capture-level meaning of a tree relates, the positions match, in either loop mode |
| RegexMeaning.MatchesRel | src/regex.c:640-660 | every positional match is realised with captures, whether or not empty loop iterations are dropped as CHECK does |
| RegexMachine.RelRuns | src/regex.c:609-684 | whatever the meaning of a tree relates, its code can run from entry to exit |
| RegexMachine.RunsRel | src/regex.c:609-684 | a run that leaves the code of a tree leaves it at its end, having done what the tree means |
| RegexMachine.Compiled | src/regex.c:609-684 | a program accepts exactly what its tree means, for all texts, captures and loop registers |
| RegexMachine.CompiledSound | src/regex.c:709-721 | an accepting run of the whole program is a match of the tree from the captures it started with |
| RegexGen.Generator.Gen | src/regex.c:609-684 | emission appends exactly `Size(t)` instructions that form the code of the tree and leaves everything before them alone |
| RegexGen.Generator.GenChain | src/regex.c:662-681 | the optional copies of a bounded repetition are emitted with their exits chained through the code |
| RegexGen.Generator.Unchain | src/regex.c:676-681 | every chained exit is patched to the end and nothing else changes |
| RegexGen.Compile | src/regex.c:709-721 | compilation succeeds exactly when the true size plus 3 is within MAX_INST, and yields the program of the tree in exactly that many instructions |
| RegexPike.MarkedLeads | src/regex.c:829-890 | whatever a marked address leads to, some listed thread leads to: marking never discards a thread that matters |
| RegexPike.Pike.Push | src/regex.c:831-890 | the work stack of `add_thread` has room: no push happens at 2n + 2 entries |
| RegexPike.Pike.AddThread | src/regex.c:829-890 | the marks are closed under the empty moves, each marked leaf has one thread, and every new thread is a sound partial match |
| RegexPike.ListBound | src/regex.c:829-890 | a list with one thread per marked leaf is never longer than the program |
| RegexPike.Pike.Step | src/regex.c:905-960 | one position of the lock-step simulation: no match that could still win is lost and the best so far stays the longest |
| RegexPike.PikeRun | src/regex.c:892-963 | a match is reported exactly when the tree matches somewhere, and the span is the leftmost start with, for that start, the longest end |
| RegexBacktrack.Backtracker.PushBranch | src/regex.c:1038-1040 | a branch frame is pushed and the configuration it is to resume is recorded: place, position, captures and loop registers of that moment |
| RegexBacktrack.Backtracker.Pop | src/regex.c:995-1006 | whatever was overwritten since, a popped branch resumes at exactly the configuration recorded when it was pushed; any other frame leaves the records alone |
| RegexBacktrack.Backtracker.Execute | src/regex.c:1006-1083 | one instruction loses nothing: every accepting run still comes from the pending configurations, read off the frame stack with its undo records, or is already beaten |
| RegexBacktrack.Backtracker.ExecutePush | src/regex.c:1038-1059 | SPLIT, and CHECK after progress, leave the other way behind with the values before the instruction; SAVE, ENTER and the rest of CHECK leave nothing |
| RegexBacktrack.Backtracker.Search | src/regex.c:973-1105 | unless the budget runs out, everything reachable from one start is explored and the longest end kept |
| RegexBacktrack.BtRun | src/regex.c:973-1105 | unless the budget runs out: the first start with an accepting run, with its longest end, or no match only when there is none |
| RegexExec.Exec | src/regex.c:1107-1142 | compiling and matching a tree gives the leftmost-longest span without back-references, the first start and its longest match with them, and all groups asked for come from one run of that match |
| RegexExec.Report | src/regex.c:1131-1139 | the groups asked for are copied, unset ones as -1, -1 |
| RegexExec.MatchersAgree | src/regex.c:1130 | on trees without back-references, what the backtracker promises is the leftmost-longest match, as the lock-step matcher promises |
| RegexRefer.DecIs | src/regex.c:27-50 | `dec` finds the character a text begins with, as `mbrtowc` does, and takes any other byte for itself |
| RegexRefer.ReferIs | src/regex.c:1060-1080 | a back-reference leads to a place if and only if both ends of its group are set and the text up to there repeats the group character for character, without regard to case with REG_ICASE |
| RegexRefer.ReferBytes | src/regex.c:1060-1080 | where case matters, those are the very bytes of the group, and the bytes of a well-formed group are taken wherever they are |
| RegexLaws.CharLaw | src/regex.c:790-811 | a character takes exactly the bytes of itself, or with REG_ICASE of any character of that lower case |
| RegexLaws.AnyLaw | src/regex.c:790-811 | the period takes exactly one well-formed character, no newline with REG_NEWLINE |
| RegexLaws.SetLaw | src/regex.c:790-811 | a set takes exactly the well-formed characters in it, a negated one those not in it and no newline with REG_NEWLINE |
| RegexLaws.WordLaw | src/regex.c:745-788 | word assertions hold exactly where the character that ends there and the one that begins there are, or are not, word characters |
| RegexLaws.LineLaw | src/regex.c:774-788 | line and buffer assertions hold exactly at the ends of the text, subject to REG_NOTBOL and REG_NOTEOL, and with REG_NEWLINE beside newlines |
| RegexLaws.LiteralLaw | src/regex.c:609-684 | a pattern of ordinary characters matches exactly its own bytes |
| RegexLaws.BoundsLaw | src/regex.c:640-684 | repeated within bounds, exactly its bytes that many times over |
| RegexLaws.GroupLaw | src/regex.c:609-684 | a group holds where what it matched begins and ends |
| Rounding.RoundIsNearest | src/strtod.c:83-122 | the reference rounding: the nearest number of the format, ties to the even significand (section 4.3.1 of IEEE 754-2008) |
| Rounding.FormatsAre | src/strtod.c:29-31 | the three formats are those of 24, 53 and 64 bits with exponent fields of 8, 11 and 15 bits (section 3.3 of IEEE 754-2008, and the x87) |
| StrtodRound.RoundTo | src/strtod.c:83-122 | `round_to` of a truncated quotient and a sticky flag is the exact ratio correctly rounded, subnormals and overflow included |
| StrtodBig.Big.MulAdd | src/strtod.c:139-149 | the limbs hold exactly value * m + a |
| StrtodBig.Big.MulPow10 | src/strtod.c:151-158 | the limbs hold exactly value * 10^k |
| StrtodBig.Big.Shl | src/strtod.c:160-180 | the limbs hold exactly value * 2^k |
| StrtodBig.Big.Bits | src/strtod.c:182-185 | the bit length of the value |
| StrtodBig.Big.Cmp | src/strtod.c:187-195 | the order of the two values |
| StrtodBig.Big.Sub | src/strtod.c:197-209 | the limbs hold exactly the difference, normalised |
| StrtodBig.Big.Top | src/strtod.c:211-233 | the leading bits are the value divided by the reported power of two, rounded down |
| StrtodBig.Big.Mul128 | src/strtod.c:235-255 | the limbs hold exactly the product with a 128-bit number |
| StrtodExact.Sizes | src/strtod.c:320-346 | numerator and denominator stay at least ten bits below the 720 limbs there are, for all exponents not answered at once |
| StrtodExact.Undershoot | src/strtod.c:344-354 | the estimated quotient never exceeds the true one |
| StrtodExact.Divide | src/strtod.c:344-360 | the correction loop ends at the exact floor, with the exact remainder |
| StrtodExact.ExactPath | src/strtod.c:315-361 | the big-integer path rounds the scaled ratio once, with the flag for what is left |
| StrtodExact.PathIsExact | src/strtod.c:315-361 | that is the decimal correctly rounded when all digits were kept |
| StrtodPaths.HalfwaySafe | src/strtod.c:290-313 | rounding to a fine grid and then to a coarser one is rounding once, unless the first result is half-way on the coarser grid |
| StrtodPaths.DoubleRounding | src/strtod.c:290-313 | rounding to 64 bits and then to the target is rounding once, unless the first result is a target half-way point |
| StrtodMain.FastPath | src/strtod.c:279-288 | one hardware operation on exact operands is the decimal correctly rounded |
| StrtodMain.MiddlePath | src/strtod.c:290-313 | when the middle path is taken its result is the decimal correctly rounded |
| StrtodSticky.TailRounds | src/strtod.c:489-497 | for float and double the first 800 digits and one flag decide the rounding of every longer decimal |
| StrtodLong.LongTail | src/strtod.c:489-497 | in every format: what the kept digits and the flag round to is right if and only if the whole decimal crosses no half-way point above them |
| StrtodLong.Misread | src/strtod.c:489-497 | a decimal of more than 800 digits, just above half the smallest long double, that is read as zero |
| StrtodMain.Decimal | src/strtod.c:265-362 | whichever path is taken: the whole decimal correctly rounded, if and only if it is not a long double that crosses a half-way point in range above its first 800 digits; and what the result is then |
| StrtodParse.ScanSignificand | src/strtod.c:472-503 | the digits, the decimal exponent and the flag of the longest significand at that place |
| StrtodParse.ScanExponent | src/strtod.c:504-517 | the exponent at that place, or its first nine digits if it has more |
| StrtodParse.ParseDecimal | src/strtod.c:472-525 | for every text and format: which number the digits and nine digits of the exponent give, with the end of the text used |
| StrtodClip.TailExact | src/strtod.c:489-497 | exactly when the digits beyond the first 800 change the number read |
| StrtodClip.ClipExact | src/strtod.c:504-517 | an exponent of ten digits or more is read right if and only if its first nine take the number out of range already, or all of it leaves it out of range on the other side |
| StrtodClip.DecimalRight | src/strtod.c:472-525 | a decimal text is read as what it says, correctly rounded, if and only if these two conditions hold |
| StrtodClip.ClipMisread | src/strtod.c:504-517 | a text that says one and is read as zero |
| StrtodClip.ShortText | src/strtod.c:472-525 | below 24 million characters only the digits beyond the first 800 of a long double can matter |
| StrtodParse.ScanHex | src/strtod.c:410-441 | 124 bits of the hexadecimal significand, its scale and a flag for the rest |
| StrtodParse.ParseHex | src/strtod.c:407-470 | for every text and format: the hexadecimal number correctly rounded, with nine digits of its exponent |
| StrtodClip.HexRight | src/strtod.c:407-470 | that is what the text says if and only if the exponent has at most nine digits, or those take it out of range already, or all of them leave it out of range on the other side |
| StrtodParse.Parse | src/strtod.c:375-526 | blanks, sign, infinities, NaNs with what is in parentheses, hexadecimal and decimal numbers: what is read, and exactly how far |
| StrtodCase.DigitValues | src/strtod.c:418-427 | every digit, decimal or hexadecimal, of either case, is worth its place in the row of digits |
| StrtodCase.OnlyDigits | src/strtod.c:410-427 | and nothing else is a digit |
| StrtodCase.SpaceIs | src/strtod.c:378-379 | exactly the white space of the C locale is passed over |
| StrtodCase.WordCharIs | src/strtod.c:393-405 | exactly letters, digits and underscores may stand in parentheses behind nan |
| StrtodCase.CaseDoesNotMatter | src/strtod.c:375-526 | texts that differ in case only are read as the same thing, to the same end |
| StrtodGrammar.NumberRead | src/strtod.c:472-525 | white space, sign, digits, point, digits and exponent, and then anything that is no part of a number: what is read is the number with those digits and that exponent, and it ends where the number ends |
| StrtodGrammar.HexNumberRead | src/strtod.c:407-470 | the same of every hexadecimal number |
| StrtodGrammar.NothingRead | src/strtod.c:472-525 | where no number begins zero is read and no character used |
| StrtodGrammar.WordsRead | src/strtod.c:376-405 | inf, infinity and nan, with any sign and after any white space, are read to their end as what they say |
| StrtodGrammar.TaggedNanRead | src/strtod.c:393-405 | a NaN with letters, digits and underscores in parentheses is read to the closing one |
| LongDouble.SplitMake | src/strtod.c:36-57 | splitting an assembled long double gives back sign, significand and exponent |
| LongDouble.MakeMeans | src/strtod.c:36-57 | the bits assembled mean sign, mantissa and exponent as the x87 format has them, subnormals and zero included |
| PrintfDec.Expansion.Mul | src/vfprintf.c:137-150 | the base-10^9 limbs hold exactly the product |
| PrintfDec.Expansion.Init | src/vfprintf.c:152-194 | `dec_init` holds exactly m * 2^e within MAX_LIMBS limbs, with its digit count and exponent |
| PrintfDec.RoundDecision | src/vfprintf.c:214-227 | the digit, the rest and the parity decide as rounding to nearest even does |
| PrintfDec.Expansion.Round | src/vfprintf.c:214-238 | after `dec_round(K)` the state stands for the value rounded to K digits, ties to even, with the all-nines carry and rounding away to zero |
| PrintfDec.ShownIs | src/vfprintf.c:240-249 | the digits given by `rdig` spell the rounded value |
| PrintfFormat.ExpStr | src/vfprintf.c:302-317 | letter, sign and the decimal digits of the exponent, at least as many as asked for and no more zeros in front |
| PrintfFormat.FmtE | src/vfprintf.c:432-462 | %e: x to p + 1 significant digits, the exponent one more when rounding runs over |
| PrintfFormat.FmtF | src/vfprintf.c:464-501 | %f: the digits spell x * 10^p rounded to an integer, with no superfluous zero in front |
| PrintfGeneral.SameDigits | src/vfprintf.c:417-431 | %g laid out as %f shows the digits that %e would, also when rounding runs over into the next power of ten |
| PrintfGeneral.StrippedValue | src/vfprintf.c:436-440 | dropping trailing zeros does not change the value |
| PrintfGeneral.FmtG | src/vfprintf.c:417-501 | %g: x to P significant digits, an exponent exactly when it is below -4 or not below P, trailing zeros dropped unless the alternate form is asked for |
| PrintfLaws.StyleLaw | src/vfprintf.c:419-431 | %g writes no exponent for numbers from 10^-4 on up to as many digits as asked for, and one beyond those and for half of 10^-4 and less |
| PrintfLaws.NoTrailingZero | src/vfprintf.c:475-500 | without the # flag a text without an exponent ends in no point and no zero behind one |
| PrintfHex.FmtHex | src/vfprintf.c:319-388 | %a: leading digit 1 (0 for zero), and all digits exactly without trailing zeros, or p of them with the last rounded to even |
| RoundTrip.RoundTripE | src/vfprintf.c:432-462 | whatever text is x to enough significant digits (9, 17, 21, or any more), and whatever it is read as, it is x with its sign |
| RoundTrip.EnoughDigits | src/vfprintf.c:432-462 | 9, 17 and 21 digits are enough for float, double and long double |
| RoundTrip.PrintThenRead | src/vfprintf.c:390-462 | %e followed by strtof, strtod or strtold is the identity on finite numbers |
| StrtodGrammar.FmtSpecial | src/vfprintf.c:402-408 | infinities and NaNs are printed as texts that are read back as them |
| RoundTripG.ReadsF | src/vfprintf.c:465-500 | the text of %f is read, to its end, as the decimal it shows, correctly rounded |
| RoundTripG.RoundTripGeneral | src/vfprintf.c:417-500 | whatever text is x to enough significant digits in the style of %g, and whatever it is read as, it is x with its sign |
| RoundTripG.PrintThenReadG | src/vfprintf.c:417-500 | %g with enough digits followed by strtof, strtod or strtold is the identity on finite numbers, with or without the # flag |
| RoundTripHex.RoundTripA | src/vfprintf.c:319-388 | whatever text is x in hexadecimal, and whatever it is read as, it is x with its sign, in every format |
| RoundTripHex.HexPrintThenRead | src/vfprintf.c:319-388 | %a followed by strtof, strtod or strtold is the identity on finite numbers |
| FutexLock.RunInv | src/runtime.c:26-63 | the invariant of `__lock`/`__unlock` in every state of every interleaving of any number of threads |
| FutexLock.MutualExclusion | src/runtime.c:47-63 | at most one thread is between `__lock` and the end of its release, even while the transient value is in the word |
| FutexLock.NoLostWakeup | src/runtime.c:26-63 | nobody sleeps while the lock is free and no thread is in the middle of an operation |
| FutexLock.FreeIffZero | src/runtime.c:47-63 | the word is zero exactly when nobody owns the lock |
| FutexLock.TransientOne | src/runtime.c:57-63 | the transient value 1 inside `__unlock` is reached |
| Semaphore.Conservation | src/semaphore.c:34-97 | initial value plus posts minus successful waits is the count, which stays in 0..SEM_VALUE_MAX |
| Semaphore.NoLostPost | src/semaphore.c:45-97 | no thread stays asleep while the count is positive and every other thread is idle or asleep |
| Semaphore.EnoughAwake | src/semaphore.c:45-97 | while somebody sleeps and the count is positive, at least as many threads are awake or being woken as the count |
| Semaphore.CallsDo | src/semaphore.c:34-97 | the count goes down by one in the step in which a wait returns success and up by one in a post that returns success, and in no other step; EAGAIN, EINTR, ETIMEDOUT and EOVERFLOW have their reasons |
| RwLock.Exclusion | src/pthread_sync.c:194-245 | the word is -1 with exactly one writer, or the number of readers |
| RwLock.ReadersExcludeWriters | src/pthread_sync.c:194-245 | a writer excludes every other holder |
| RwLock.NoForgottenSleeper | src/pthread_sync.c:208-245 | a sleeper has a conflicting holder, or somebody in the middle of unlocking who will wake it |
| RwLock.DeadlockDetected | src/pthread_sync.c:194-227 | a thread told EDEADLK holds the write lock, and a holder that gets to the test passes it |
| RwLock.CallsDo | src/pthread_sync.c:194-245 | what every call of every thread has done when it returns: a lock that succeeded is held, one that failed changed nothing, an unlock gives up exactly one |
| RwLock.NeverSleep | src/pthread_sync.c:194-226 | the try calls never wait |
| RwLock.RefusedForReason | src/pthread_sync.c:194-227 | a lock is refused or waited for only when the word the call saw was in its way |
| Mutex.MutualExclusion | src/pthread_sync.c:42-105 | at most one holder, for every type of mutex, in every state of every interleaving |
| Mutex.OwnerIsHolder | src/pthread_sync.c:60-105 | a nonzero owner field names the actual holder |
| Mutex.CountIsDepth | src/pthread_sync.c:60-105 | between calls, the holder is the owner recorded and its depth the count; only a recursive mutex is deeper than one |
| Mutex.NoLostWakeup | src/pthread_sync.c:42-105 | nobody sleeps on a free mutex while no thread is in the middle of an operation |
| Mutex.CallsDo | src/pthread_sync.c:42-181 | what every call of every thread has done when it returns, for every type of mutex: depth one more, one less or the same, and which results are possible when |
| Mutex.NeverSleep | src/pthread_sync.c:60-87 | a trylock never sleeps, nor does the owner of a recursive or error-checking mutex |
| Mutex.FailsForReason | src/pthread_sync.c:42-92 | EBUSY is said of a mutex locked at that moment, and ETIMEDOUT by a thread that slept |
| Mutex.WaitReleases | src/pthread_sync.c:128-148 | a waiter on a condition holds nothing of its mutex, however deep it was locked |
| Mutex.WaitRestores | src/pthread_sync.c:128-148 | and has it back at the same depth when it returns |
| Mutex.BroadcastReleases | src/pthread_sync.c:176-181 | every waiter that read the sequence number before a broadcast is released by it |
| Mutex.SignalWakesOne | src/pthread_sync.c:169-174 | a signal takes exactly one of the threads that sleep out of their sleep, if there are any, and changes no other |
| Mutex.SignalNotMissed | src/pthread_sync.c:128-174 | a waiter that read the sequence number before a signal counts it up does not go to sleep after that |
| Barrier.NobodyLeavesEarly | src/pthread_sync.c:263-281 | no thread leaves a cycle before `target` arrivals |
| Barrier.OneSerial | src/pthread_sync.c:263-281 | exactly one thread of a finished cycle gets the serial result |
| Barrier.NoExtraArrivals | src/pthread_sync.c:263-281 | no cycle has more than `target` arrivals |
| Barrier.NoForgottenSleeper | src/pthread_sync.c:263-281 | a sleeper waits for the current cycle, or somebody is about to wake it |
| FnmatchPattern.MatchBracket | src/fnmatch.c:33-91 | a bracket expression is read and tested as its items say, malformed and unclosed ones included |
| Fnmatch.StarEveryLength | src/fnmatch.c:93-161 | the declarative matcher tries every star at every length |
| Fnmatch.Exchange | src/fnmatch.c:93-161 | a match through an earlier star gives one through the last star: remembering only the last loses nothing, under every combination of flags |
| Fnmatch.NoSlash | src/fnmatch.c:93-161 | with FNM_PATHNAME, where what follows a star fits at two places and no slash lies between these, none lies in what it fits, so the star need not be tried beyond a slash |
| Fnmatch.Run | src/fnmatch.c:93-161 | `fnmatch` succeeds exactly when the declarative matcher accepts, in at most (pattern length + 2) * (text length + 2) steps, each of which looks at no more bracket items than the pattern is long |
| FnmatchLaws.ClassIs | src/fnmatch.c:16-31 | the twelve names are classes and no other, and each contains exactly the characters of that class in the C locale |
| FnmatchLaws.CaseIs | src/fnmatch.c:11-14 | letters change case with their place in the alphabet and nothing else does |
| FnmatchLaws.BracketLaw | src/fnmatch.c:33-91 | characters, ranges and classes in brackets take one character exactly when it is in one of them, or negated in none, but no slash of a path and no leading period |
| FnmatchLaws.BracketAlone | src/fnmatch.c:33-161 | a pattern that is one bracket expression matches exactly the one-character texts that it contains, or does not |
| FnmatchLaws.FoldedRange | src/fnmatch.c:79-84 | with FNM_CASEFOLD a range takes what it contains in either case if and only if both ends are upper case letters or neither is, or they lie so that folding them loses and adds nothing |
| FnmatchLaws.FoldedExamples | src/fnmatch.c:79-84 | with FNM_CASEFOLD [Z-a] does not match A, and [@-Z] matches an opening bracket |
| FnmatchLaws.LiteralLaw | src/fnmatch.c:144-150 | an ordinary character takes itself, in either case with FNM_CASEFOLD |
| FnmatchLaws.EscapeLaw | src/fnmatch.c:136-150 | an escaped character takes itself, and a backslash at the end matches nothing |
| FnmatchLaws.QuestionLaw | src/fnmatch.c:115-120 | a question mark takes any character but a slash of a path or a leading period |
| FnmatchLaws.StarLaw | src/fnmatch.c:100-161 | a star takes any characters, none of them a slash of a path, and stands before no leading period |
| FnmatchLaws.EndLaw | src/fnmatch.c:105-108 | a pattern that is used up matches at the end, or at a slash with FNM_LEADING_DIR |
| FnmatchLaws.UnclosedLaw | src/fnmatch.c:121-150 | an opening bracket with no other bracket behind it takes itself |
| Hsearch.TriDistinct | src/search.c:84-109 | the first 2^n triangular numbers are different modulo 2^n |
| Hsearch.ProbesCover | src/search.c:84-109 | the first 2^n probes visit every slot once |
| Hsearch.SearchEnds | src/search.c:84-109 | so every search of a table with a free slot ends |
| Hsearch.Table.constructor | src/search.c:52-73 | `hcreate_r(nel)`: an empty table that takes nel keys |
| Hsearch.Table.Search | src/search.c:84-109 | `hsearch_r` refines a finite map: FIND and ENTER, with ENOMEM exactly when the table is three quarters full |
| Hsearch.EnterAll | src/search.c:52-109 | a table made for nel takes any nel distinct keys |
| AvlTree.BalanceWorks | src/search.c:141-172 | `balance` makes an AVL tree of a node whose subtrees differ in height by at most two |
| AvlTree.BalanceOrdered | src/search.c:141-172 | and keeps the order |
| AvlTree.InsertAvl | src/search.c:188-212 | insertion keeps the tree balanced with exact stored heights |
| AvlTree.InsertKeys | src/search.c:188-212 | and adds exactly the key |
| AvlTree.DeleteAvl | src/search.c:214-260 | deletion keeps the tree balanced with exact stored heights |
| AvlTree.DeleteKeys | src/search.c:214-260 | and removes exactly the key |
| AvlTree.AlwaysAvl | src/search.c:188-260 | after any sequence of operations the tree is ordered, balanced and holds exactly the expected keys |
| AvlTree.PathFits | src/search.c:130-260 | with fewer than 2^64 nodes no path is longer than MAXH |
| AvlHeap.SearchTree.RotAt | src/search.c:141-153 | the rotation in place is the rotation of the tree |
| AvlHeap.SearchTree.BalanceAt | src/search.c:155-172 | balancing in place is `balance` of the tree |
| AvlHeap.SearchTree.Up | src/search.c:188-260 | the walk back along the saved slots rebalances every changed ancestor |
| AvlHeap.SearchTree.Tfind | src/search.c:174-186 | the node with that key, or none if the tree has none |
| AvlHeap.SearchTree.Tsearch | src/search.c:188-212 | the heap afterwards is exactly the tree with the key inserted |
| AvlHeap.SearchTree.Tdelete | src/search.c:214-260 | the heap afterwards is exactly the tree with the key deleted, by successor replacement where there are two children; the answer names the parent the node had |
| Qsort.Insertion | src/qsort.c:45-50 | the range is sorted and rearranged only within itself |
| Qsort.Sift | src/qsort.c:52-65 | sifting restores the heap order below a root |
| Qsort.Heapsort | src/qsort.c:67-75 | the range is sorted and rearranged only within itself, with at most three comparisons an element for each bit of their number |
| Qsort.Partition | src/qsort.c:88-108 | everything before the place returned is at most the pivot there, everything after at least |
| Qsort.Introsort | src/qsort.c:77-117 | the range is sorted through all three regimes, recursion nests at most log2(n) deep, and the comparisons stay within an allowance of three an element for each division left and each bit of n |
| Qsort.QsortR | src/qsort.c:119-126 | `qsort_r` leaves a sorted permutation of its input for every total preorder, with at most n * (9 * (log2(n) + 1) + 8) comparisons whatever the input |
| Qsort.Bsearch | src/qsort.c:138-154 | an element that compares equal, or none exactly when there is none |
| Stdio.OverwriteTwice | src/stdio.c:132-168 | two writes one behind the other are one: the law under short writes |
| Stdio.WriteStep | src/stdio.c:132-168 | writing through what is pending and more is writing more to the plain stream |
| Stdio.StoreStep | src/stdio.c:255-276 | so is leaving it in the buffer |
| Stdio.ConsumeStep | src/stdio_io.c:73-111 | taking bytes read ahead takes them from the plain stream, pushed-back ones first |
| Stdio.DeliveredAndPending | src/stdio.c:132-168 | while all goes to the end of the file, bytes delivered followed by bytes pending are all bytes accepted |
| Stdio.OneLine | src/stdio_io.c:113-154 | the line returned, and the stream left, are determined by what there was to read |
| StdioStream.Deliver | src/stdio.c:132-164 | the two-vector loop delivers the bytes in order whatever part the file takes each time, and counts the argument bytes written |
| StdioStream.Stream.Write | src/stdio.c:132-168 | `__stdio_write`: everything is in the file and the buffer empty exactly when the file reports no error; otherwise the error flag is set and the file holds some first part of it |
| StdioStream.Stream.ToRead | src/stdio.c:182-197 | into read mode with everything pending flushed |
| StdioStream.Stream.ToWrite | src/stdio.c:199-221 | into write mode with what was read ahead given up |
| StdioStream.Stream.Uflow | src/stdio.c:223-239 | the next byte of the plain stream, or the end exactly when there is none |
| StdioStream.Stream.Getc | src/stdio_impl.h:104 | the next byte of the plain stream, or the end exactly when there is none |
| StdioStream.Stream.Overflow | src/stdio.c:241-253 | one byte written to the plain stream |
| StdioStream.Stream.Putc | src/stdio_impl.h:105-107 | one byte written to the plain stream, at once or later |
| StdioStream.Stream.Fwritex | src/stdio.c:255-276 | the bytes written to the plain stream for every buffer size, and in line mode no newline left pending |
| StdioStream.Stream.Fflush | src/stdio.c:280-294 | everything is in the file and the position kept, except exactly when the file cannot seek or bytes were pushed back before its start |
| StdioStream.Stream.Fseek | src/stdio.c:531-550 | the position of the plain stream moved, or nothing changed exactly when the place is before the start or the file cannot seek |
| StdioStream.Stream.Ftell | src/stdio.c:565-576 | the position of the plain stream, whatever is read ahead, pushed back or pending, append mode included |
| StdioStream.Stream.Ungetc | src/stdio_io.c:36-51 | the byte is in front of what there is to read and the end is forgotten; it is refused only when UNGET bytes or more are pushed back |
| StdioStream.Stream.Fread | src/stdio_io.c:73-111 | the front of what there is to read, as much as asked for unless it ends, and the number of whole members |
| StdioStream.Stream.Fwrite | src/stdio_io.c:62-71 | all members written to the plain stream, unless the file reports an error or the stream is not open for writing; the error flag is set for these reasons and no other |
| StdioStream.Stream.Fgets | src/stdio_io.c:113-154 | the next line, at most n - 1 bytes of it |
| StdioStream.Stream.Getdelim | src/stdio_io.c:175-239 | the next line whole; one check of the room before each part leaves enough for it, the byte read after it and the end |
| StdioRun.Perform | src/stdio.c:132-294 | any calls in any order, with any buffer and any short reads and writes: if the file reports no error and the stream is open for what is asked of it, none is reported and the answers are those of the plain stream |
| StdioRun.WriteRun | src/stdio.c:132-276 | after any calls that write or flush, at the end or in append mode, bytes delivered followed by bytes pending are the bytes there were followed by all bytes given, unless the file reports an error; in line mode no finished line is pending |
| StdioRun.ReadRun | src/stdio_io.c:36-239 | after any calls that read, bytes returned, less those pushed back, followed by those still to be read are those there were to read, and the position has moved by as many |
| StdioRun.SeekAndRead | src/stdio.c:531-550 | seeking from the start, from where the stream is and from the end, and reading there, gives the bytes that are there |
| StdioRun.PushAtStart | src/stdio.c:565-576 | with a byte pushed back at the start of a file `ftell` gives -1, and after `fflush` 0 |
| Calendar.DaysFromCivilIs | src/tz.c:209-217 | `__days_from_civil` counts days as the calendar does, year by year and month by month |
| Calendar.SecsToTmReads | src/timeconv.c:19-50 | every field is in range, the day within the actual month, and the reading is that time; weekday and day of the year included |
| Calendar.SecsToTmFits | src/timeconv.c:37-40 | it fails exactly when the calendar year minus 1900 does not fit in int |
| Calendar.ReadsOnce | src/timeconv.c:19-50 | a time has one reading |
| Calendar.TmToSecsIs | src/timeconv.c:95-110 | any fields at all: months carry into years, the rest counts from the first of the month, failure exactly beyond 2^40 years |
| Calendar.SecsRoundTrip | src/timeconv.c:19-110 | every time that has a reading comes back from it |
| Calendar.TmRoundTrip | src/timeconv.c:19-110 | every reading comes back from its time |
| CalendarLaws.WeekdayIsZeller | src/timeconv.c:19-50 | the weekday of every date is that of Zeller's congruence |
| CalendarLaws.ReadingWeekday | src/timeconv.c:19-50 | and so is the weekday of every reading |
| Calendar.TimegmAgain | src/timeconv.c:112-123 | `timegm` puts fields in order once and for all |
| Timezone.DayOfMonthIs | src/tz.c:231-241 | the day worked out is the w-th such weekday of the month, or the last, and no other day is |
| Timezone.RuleTimeOf | src/tz.c:220-244 | the second of the year of a rule date of any of the three kinds |
| CalendarLaws.JulianIs | src/tz.c:220-230 | day n of the kind that does not count February 29 is the same date in every year |
| CalendarLaws.DayIs | src/tz.c:220-230 | day n of the kind that counts it moves by one after February in leap years |
| CalendarLaws.OnTheClock | src/tz.c:220-278 | when daylight saving time starts clocks of standard time show the start of the rule, and when it ends clocks of daylight saving time its end |
| Timezone.YearFor | src/tz.c:254-261 | the estimated and corrected year is the calendar year of the day |
| Timezone.RuleLookup | src/tz.c:247-278 | daylight saving time is in force as the rule for that year says, both orders of start and end, and before 1970 as when 1970 began |
| CalendarLaws.InForce | src/tz.c:247-278 | from 1970 on daylight saving time is in force between start and end, or outside them where the end comes first |
| Mktime.FindKind | src/timeconv.c:127-142 | none exactly when no probe up to 24 steps away has the wanted kind, else the offset at the fewest steps, earlier before later |
| Mktime.MktimeOf | src/timeconv.c:144-226 | the offset chosen: a consistent type of the wanted kind, else any of that kind, else one found further off; with an unknown flag a consistent type, rather standard time, else the smallest offset |
| Mktime.AnyConsistent | src/timeconv.c:191-213 | with an unknown flag, a local time that a type nearby gives is given back by the result |
| Mktime.MktimeInverts | src/timeconv.c:144-226 | in the zone of any rule, `mktime(localtime(t))` is t if and only if a probe sees t's kind of time or daylight saving time is an hour ahead |
| Mktime.NotInverted | src/timeconv.c:144-226 | a rule of two hours of daylight saving time a year, and a time in them that `mktime` does not give back |
| Mktime.MktimeLocaltime | src/timeconv.c:68-226 | it is t in every zone whose standard and daylight saving periods each last a day or more |
| Mktime.ApartLasts | src/tz.c:247-278 | rules whose dates keep a day from each other and from New Year have such periods |
| Mktime.DefaultLasts | src/tz.c:190-193 | the default rule has |
| CalendarLaws.FlagObeyed | src/timeconv.c:144-226 | in the zone of a rule a given flag is obeyed where that kind of time is near: the fields are read with the offset of that kind |
| CalendarLaws.NoneToObey | src/timeconv.c:144-226 | in a zone without daylight saving time, asking for it is asking for an hour earlier |
| CalendarLaws.UnknownFlag | src/timeconv.c:191-213 | near a change and with an unknown flag: standard time if that shows the fields, else daylight saving time if that does, else the smaller offset |
| Utf8.Wcrtomb | src/multibyte.c:109-144 | the UTF-8 form of exactly the scalar values |
| Utf8.EncodeForm | src/multibyte.c:109-144 | the bytes of a character hold its bits six by six behind their marks, in as few bytes as can be (section 3 of RFC 3629) |
| Utf8.Mbrtowc | src/multibyte.c:32-96 | what feeding the bytes one by one gives, with the state left for the next call |
| Utf8.DecodeEncoded | src/multibyte.c:32-144 | decoding inverts encoding |
| Utf8.DecodeSound | src/multibyte.c:19-96 | only the forms of section 4 of RFC 3629 are accepted |
| Utf8.IncompleteIff | src/multibyte.c:32-96 | incomplete is reported for exactly the proper prefixes of well-formed characters |
| Utf8.IllegalIff | src/multibyte.c:32-96 | illegal is reported for exactly what neither begins with nor begins a well-formed character |
| Utf8.AnyChunking | src/multibyte.c:32-96 | however a text is cut into pieces, the same characters come out |
| Utf8.RoundTrip | src/multibyte.c:32-144 | decoding an encoded text gives the text |
| Utf8.RoundTripBack | src/multibyte.c:32-144 | encoding a decoded text gives the text |
| Utf16.Mbrtoc16 | src/uchar.c:45-72 | the units of a character over one or two calls |
| Utf16.UnitsInOrder | src/uchar.c:45-72 | characters beyond U+FFFF are pairs of surrogates, counted up from D800 DC00 in base 1024 |
| Utf16.C16rtomb | src/uchar.c:74-104 | the bytes of a character once its last unit is given, errors for unpaired surrogates |
| Utf16.ToUtf16 | src/uchar.c:45-72 | any cutting of a text gives its UTF-16 form, exactly when it is well-formed |
| Utf16.BackOnly | src/uchar.c:74-104 | what `c16rtomb` takes to the end without an error is well-formed UTF-16 |
| Utf16.ThereAndBack | src/uchar.c:45-104 | UTF-8 to UTF-16 and back is the identity, whatever the pieces |
| Uchar8.Mbrtoc8 | src/uchar.c:106-139 | the bytes of a character one call at a time |
| Uchar8.C8rtomb | src/uchar.c:141-193 | a character is written with its last byte, a bad prefix refused at once |
| Uchar8.BackIs | src/uchar.c:141-193 | `c8rtomb` takes well-formed UTF-8 and nothing else, and gives it back |
| Uchar8.ThereAndBack | src/uchar.c:106-193 | there and back is the identity, whatever the pieces |
| Iconv.SameUtf8 | src/iconv.c:112-132 | UTF-8 is read as `mbrtowc` reads it, a wrong second byte possibly noticed only when the character is complete |
| Iconv.Stable | src/iconv.c:108-211 | what was decided about a character does not depend on what follows |
| Iconv.Redecode | src/iconv.c:108-211 | looking at something that is not a byte order mark leaves nothing behind that would make it look different the next time |
| Iconv.DecodeEncode | src/iconv.c:108-308 | what `encode` writes `decode` reads, byte order mark first, in all 17 charsets |
| IconvLaws.EncodesAs | src/iconv.c:213-308 | in a charset of a named byte order a character is its code in two or four bytes of that order, or two surrogates |
| IconvLaws.EncodesMarked | src/iconv.c:226-308 | UTF-16 and UTF-32 write a mark before the first character, and then little-endian |
| IconvLaws.MarkedText | src/iconv.c:108-411 | a byte order mark of either order and a text are converted as the text alone is from the charset of that order: for every text, with every option, in any room |
| IconvLaws.UnmarkedText | src/iconv.c:108-411 | a text without a mark is little-endian |
| IconvLaws.BigEndianA | src/iconv.c:108-411 | FE FF 00 41 is the letter A |
| IconvLaws.WindowsIs | src/iconv.c:90-93 | the 27 characters that CP1252 has in place of the C1 controls |
| IconvLaws.WindowsRest | src/iconv.c:90-93 | its other bytes are those of ISO 8859-1, but for five that are nothing |
| IconvLaws.Latin9Is | src/iconv.c:94-97 | the eight characters in which ISO 8859-15 differs from ISO 8859-1 |
| IconvLaws.Latin9Rest | src/iconv.c:94-97 | and it differs in no other |
| IconvLaws.PlainBytes | src/iconv.c:108-211 | ASCII is the lower half of ISO 8859-1, which is the first 256 characters |
| IconvLaws.TranslitIs | src/iconv.c:311-320 | what stands in for a character, by kind: spaces, dashes, quotation marks, letters and signs, and a question mark for all others |
| IconvRun.PutRoom | src/iconv.c:226-340 | what fits in the output does not depend on how much more room there is; transliteration is all or nothing |
| IconvRun.NeverIllegal | src/iconv.c:342-411 | with //IGNORE no call stops for an illegal or unrepresentable character |
| IconvRun.Resume | src/iconv.c:342-411 | a call that stops for want of room or input and a call on what it left do what one call does |
| IconvRun.AsOneCall | src/iconv.c:342-411 | any number of interrupted calls together do what one call on all the input does: output, input used, state and stop |
| IconvRun.SameOutput | src/iconv.c:342-411 | calls that use all their input write what one call with room enough writes |
| IconvRun.Converts | src/iconv.c:342-411 | a text in one charset becomes the same text in the other |
| IconvRun.ThereAndBack | src/iconv.c:342-411 | converting there and back gives the bytes that were there |
| IconvCode.Converter.Decode | src/iconv.c:108-211 | the descriptor decodes as specified and remembers exactly that |
| IconvCode.Converter.Encode | src/iconv.c:226-308 | the descriptor encodes as specified and remembers exactly that |
| IconvCode.Converter.Translit | src/iconv.c:322-340 | the whole replacement is written, or nothing and nothing remembered |
| IconvCode.Converter.Reset | src/iconv.c:349-354 | a call without input puts the descriptor back into its initial state |
| IconvCode.Converter.Iconv | src/iconv.c:342-411 | the call does what its specification says, and returns the irreversible conversions or -1 |

## Left out

- RegexExec.Exec: which run the groups other than the whole match come from, among those of the winning span, is not stated; POSIX's rules for subexpressions are not those of the code.
- Argument checks of `regexec`, REG_BADPAT for a null program or a bad REG_STARTEND range, are not modelled.
- IconvCode.Converter.Translit: bytes of a replacement written before the room ran out are not shown in the output buffer, which the code does not count either.
- PrintfGeneral.FmtG: does not model the C int overflow of precisions within three of INT_MAX.
- Hsearch.Table.Search: the keyed hash is a parameter; size overflow and allocation failure of `hcreate_r` and a null table are not modelled.
- StdioStream.Stream.Uflow: does not model that reading standard input flushes a line-buffered standard output.
- StdioStream.Stream.Getdelim: lines longer than SSIZE_MAX and allocation failure are not modelled.
- RwLock.Exclusion: unlocking by a thread that does not hold the lock is not modelled, as POSIX leaves it undefined; the same holds for a normal mutex and a condition wait on it.
- The regular expression parser, bracket expressions and character class tables: matching starts from the parse tree, with character tests and assertions as predicates on positions.
- `errno` of the floating-point readers, and flags, field width and padding of the floating-point printers.
- Weak memory, and wrap-around of sequence numbers and of the regex mark generation.
- The mutex inside a barrier is an atomic lock there, having been proved on its own.
- Memory of `tsearch` and `tdelete` is a map from node numbers to cells.
- Byte-wise swapping of elements of any width in `qsort_r`: elements are values.
- The packing of conversion states into `mbstate_t`.
- `fopen` modes, `setvbuf` after use, stream locking, wide orientation, memory and cookie streams.
- TZif files, the zone cache and the parsing of TZ strings: the model starts from a parsed rule.
- `strftime`, `strptime`, `asctime`: text forms of times.
- `twalk`, `tdestroy`, `lsearch`, queues: easy beside the tree.
- Names of charsets in `iconv_open`.
- Everything else in the library: system call wrappers, processes, networking, databases, locales, cryptography, start-up.
