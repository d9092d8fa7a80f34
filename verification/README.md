# Verification of the C library's formatter, locks and string routines

Three parts of the library are modelled in Dafny, and their hard properties are proved for all inputs, all runs and
all schedules. `dafny verify dfyconfig.toml` checks everything.

**The formatter** (`src/vsnprintf.cpp`). `Parser`, `Numbers`, `Formatter` and `Driver` follow the code: a cursor over
the format fills a mutable `FormatSpec`, integers are built backwards in a 66-character array, the zero flag is
rewritten into a precision, and the driver loop writes into one buffer with a capacity. Each method is proved against
a function on values (`ParseDirective`, `NumberText`, `Put`, `Emit`, `Run`). `Reference` defines the output without any
capacity and proves that a run is that output cut to the capacity exactly when every width reached fits (`Supported`).
`Standard` defines the output that section 7.21.6.1 of ISO/IEC 9899:2011 asks for, independently of the code, for the
integer, character, string and percent directives whose behaviour it defines (`Defined`), and proves for each exactly
when the code prints it. `ReadBack` proves that every printed number denotes its value, `Canonical` that parsing
inverts printing, and `Differences` shows inputs on which the output is not the standard's, and some on which it is.

**The locks** (`include/dux/spin_lock.h`, `include/arch/x86/asm/cpu.h`, `src/malloc.cpp` and the two locks of
`benchmarks/spin_ttas_vs_tas_bench.cpp`). `SpinLocks` interleaves the loads, exchanges, compare-exchanges and stores of
any number of threads with calls on an object under the lock; `LockProperties` draws the consequences. `Interrupts`
adds CPUs, interrupt flags, nested handlers and nested guards. `ViewLock` replaces sequential consistency by
release/acquire views after section 31.4 of ISO/IEC 14882:2020, with relaxed loads that can return old values. `Locking` holds the code of lock, guards and wrappers
as one thread runs it, while a schedule says what the others leave in the lock word.

**The string routines** (`src/cstring.cpp`, `posix/posix_strings.cpp`). Memory is one mutable array, pointers are
offsets, and `char` is signed. `Memory`, `CStrings`, `Comparison`, `Search`, `Tokens` and `PosixStrings` follow the
code; clients (`Tokenize`, `RunAndOnceMore`, `LowerThenCompare`, `BuildString`) make whole call sequences.

`Buffers`, `Numerals`, `Options`, `Directives` and `FormatSpecs` hold shared definitions.

## Where the code differs from the C standard

The model follows the code. Each difference is named with its exact condition and a lemma that shows an input.

- The conversions `f F e E g G a A` are not implemented, and the modifiers `j` and `L` are read as conversions: a
  conversion character other than `d i u o x X p c s n` prints itself and takes no argument (`NotConverted`;
  `UnknownHappens`: `%f` prints "f", `%jd` prints "jd").
- `%lc` and `%ls` print as `%c` and `%s` (`WideIgnored`; `WideHappens`). Flags, precisions and modifiers that the
  standard leaves undefined for a conversion are ignored likewise (`UndefinedIgnored`).
- `h` does not narrow an argument out of the short range (`ShortDiffers`; `ShortHappens`: `%hd` with 70000 prints
  "70000", not "4464").
- The value 0 with a zero flag and a width equal to the length of its sign prints no digit (`LosesZero`;
  `LosesZeroHappens`: `%+01d` prints "+").
- `%#o` adds a `0` on top of the precision, and prints nothing for value 0 and precision 0 (`OctalPrefixDiffers`;
  `OctalZerosHappens`, `OctalNothingHappens`).
- A negative `*` width gives no padding (`NegativeWidthDiffers`; `NegativeWidthHappens`), and a negative precision
  removes the zero flag (`NegativePrecisionDiffers`; `NegativePrecisionHappens`).
- A number whose text is longer than the 66 characters of `num_str` and `number_str` is written past their ends: a
  zero-filled width above 66, or else a precision above 66 with sign and prefix counted (`OverrunsArrays`, exact by
  `ReadyExact` and `TextFits`; `ArrayOverrunHappens`: `%.67d`).
- Where a width does not fit the capacity left, the buffer need not hold the beginning of the output; it does, with the
  position and the count that go with it, exactly when every width reached fits (`Supported`, by `RunExact`). The
  position can move past the capacity, under a minus flag with blanks stored there, because they are cut to the whole
  capacity and not to what the text has left; it stays inside exactly under `StaysWithin` (`RunStaysWithin`;
  `WidthOverrunHappens`, `MinusOverrunHappens`). And a string is padded after it is cut, so text inside the capacity
  can be misplaced (`MisplacedStringHappens`: `%8s` of "abcdef" in 5 characters stores "   ab").
- The return value is at most the length of the whole output, and is that length exactly under `CountsAll`: nothing is
  cut off, or the cut falls in a directive that is counted in full, and nothing more is printed after it. All but
  strings are counted in full, and strings are when their width makes up for the cut (`TotalExact`, whether widths fit
  or not; `ReturnTooSmallHappens`). With a capacity of 0 or at least INT_MAX it is 0 whatever the output.
- `strcmp` and its relatives compare signed characters; the sign agrees with section 7.24.4 exactly when the first
  differing characters are both negative or both not (`SignMeetsStandard`; `SignDiffersHappens`).
- A first call of `strtok_r` on a string without tokens leaves `*saveptr` alone, so a following call with null can
  return a token of an older string (`RunAndOnceMore`; `StaleToken`).

## Model

| member | source | states |
|---|---|---|
| Reference.SNPrintf | src/vsnprintf.cpp:451-606 | whenever every width reached fits, the buffer holds the first max_size - 1 characters of the reference output and a NUL, no other character changes, and the result is the stored length plus what is cut from a directive counted in full; whether widths fit or not, the result of a wholly legal format is at most the reference length, and equal to it if and only if everything is counted; max_size 0 or at least INT_MAX returns 0 and changes nothing |
| Reference.RunExact | src/vsnprintf.cpp:462-580 | a run of a legal format is the clipped reference, with the expected count, if and only if every directive reached fits the capacity left |
| Reference.RunRenders | src/vsnprintf.cpp:462-580 | the forward half, which also gives that every directive reached is legal |
| Reference.EmitExact | src/vsnprintf.cpp:209-257 | one directive prints its clipped text and counts it as expected if and only if its width fits, for every conversion |
| Reference.PlacementExact | src/vsnprintf.cpp:209-232 | justification stays inside the capacity if and only if the width fits, and then writes exactly the clipped field; it always counts the whole field |
| Reference.RunStaysWithin | src/vsnprintf.cpp:215-229 | the final position of a legal format is inside the capacity if and only if every placed width fits what is left |
| Reference.TotalExact | src/vsnprintf.cpp:209-257 | for every legal format, fitting or not, the return value is at most the length of the whole output, and equal to it if and only if nothing is cut, or the cut falls in a directive counted in full after which nothing is printed |
| Reference.EmitTotal | src/vsnprintf.cpp:248-256 | a directive that is cut counts its whole text unless it is a string cut before counting whose width does not reach its length |
| Standard.MeetsStandard | src/vsnprintf.cpp:240-437 | for every directive that the standard defines and every argument of its type, the code stays inside its arrays and prints the standard's text if and only if none of the six named differences applies |
| Standard.SizedMeetsStandard | src/vsnprintf.cpp:327-437 | with arrays that hold width and precision, the text is the standard's if and only if the value is and none of the other four applies, for every width and precision |
| Standard.ReadyExact | src/vsnprintf.cpp:331-435 | the 66-character arrays hold a number's text if and only if its fields are not too large |
| Standard.ZeroFilled | src/vsnprintf.cpp:354-368 | with arrays that hold the width, rewriting it into a precision is filling with zeros after sign and prefix up to max(width, natural length), for every value, radix and width, except exactly when it loses the only digit of 0 |
| Standard.ZeroConforms | src/vsnprintf.cpp:417-427 | a zero flag that survives parsing means no precision was given, and with such arrays the emulation is exact up to `LosesZero` and a negative width |
| Standard.PlainConforms | src/vsnprintf.cpp:327-437 | without a zero flag and with such arrays the text is the standard's exactly up to the octal form, a negative width and a negative precision |
| Standard.RenderMeetsStandard | src/vsnprintf.cpp:462-580 | a format of defined directives that conform is legal and has the standard's whole output |
| Standard.NarrowingMeetsStandard | src/vsnprintf.cpp:259-325 | the value printed is the standard's if and only if no short argument is out of range |
| Standard.OtherValue | src/vsnprintf.cpp:278-280 | with a value that is not the standard's the text never is, whatever flags, width and precision |
| Standard.StdNumberReads | src/vsnprintf.cpp:327-437 | the standard's field, too, denotes its value |
| Standard.UndefinedIgnored | src/vsnprintf.cpp:485-577 | flags, precision and length modifier that the standard leaves undefined for a conversion, wide characters included, change nothing |
| Standard.SameDigits | src/vsnprintf.cpp:330-350 | the code's digits are those of the standard's own tables, abcdef and, for `X`, ABCDEF |
| Standard.LetterCase | src/vsnprintf.cpp:330-390 | `%X` prints no small letter, and every other number directive, pointers included, no capital one |
| Standard.SameArgType | src/vsnprintf.cpp:259-325 | the code reads each argument as the type that the standard gives it |
| Standard.PointerText | src/vsnprintf.cpp:534-549 | a non-null pointer prints its digits abcdef, filled up to its precision, or to 16 when neither width nor precision is given, and justified |
| Standard.NullText | src/vsnprintf.cpp:240-257 | a null string prints as "(null)", cut to the precision and justified |
| ReadBack.FieldReadsBack | src/vsnprintf.cpp:401-437 | the uncut field of every number directive, read back as a numeral with its sign, is the value read, for all flags, widths and precisions |
| ReadBack.FormattedReads | src/vsnprintf.cpp:401-437 | the same for every specification and size of the arrays |
| Differences.WideHappens | src/vsnprintf.cpp:240-257 | `%ls` prints a plain string |
| Differences.UnknownHappens | src/vsnprintf.cpp:172-207 | `%f`, `%jd` and `%Lf` print "f", "jd" and "Lf" |
| Differences.LosesZeroHappens | src/vsnprintf.cpp:418-426 | `%+01d` with 0 prints "+", the standard "+0" |
| Differences.OctalZerosHappens | src/vsnprintf.cpp:377-382 | `%#.3o` with 1 prints "0001", the standard "001" |
| Differences.OctalNothingHappens | src/vsnprintf.cpp:337-339 | `%#.0o` with 0 prints nothing, the standard "0" |
| Differences.NegativeWidthHappens | src/vsnprintf.cpp:135-137 | `%*d` with -3 and 5 prints "5", the standard "5" and two blanks |
| Differences.NegativePrecisionHappens | src/vsnprintf.cpp:152-159 | `%03.*d` with -1 and 5 prints two blanks and "5", the standard "005" |
| Differences.ShortHappens | src/vsnprintf.cpp:278-280 | `%hd` with 70000 prints "70000", the standard "4464" |
| Differences.ArrayOverrunHappens | src/vsnprintf.cpp:370-375 | `%.67d` with 1 overruns the arrays although nothing else differs |
| Differences.CompensatingHappens | src/vsnprintf.cpp:377-426 | a format whose directives do not conform can have the standard's whole output |
| Differences.WidthOverrunHappens | src/vsnprintf.cpp:215-219 | with a capacity of 5 `%8d` moves the position to 7 |
| Differences.MinusOverrunHappens | src/vsnprintf.cpp:225-229 | with a capacity of 5 `%-8s` stores 8 characters |
| Differences.MisplacedStringHappens | src/vsnprintf.cpp:248-256 | with a capacity of 5 `%8s` of "abcdef" stores three blanks and "ab" instead of two blanks and "abc", the position inside and the count right |
| Differences.ReturnTooSmallHappens | src/vsnprintf.cpp:467-474 | two literals with a capacity of 1 return 1 |
| Differences.SpaceFlagHappens | src/vsnprintf.cpp:111-113 | `% d` with 5 prints a space and "5", as the standard asks |
| Differences.SmallHexHappens | src/vsnprintf.cpp:330 | `%x` with 255 prints "ff", as the standard asks |
| Differences.CapitalHexHappens | src/vsnprintf.cpp:330 | `%X` with 255 prints "FF", as the standard asks |
| Differences.FullArraysHappens | src/vsnprintf.cpp:33 | `%.66d` still fits the arrays |
| Differences.PointerHappens | src/vsnprintf.cpp:534-549 | `%p` of 255 prints "00000000000000ff" |
| Differences.CharacterHappens | src/vsnprintf.cpp:234-238 | `%c` prints the character of the low eight bits of its argument |
| Driver.VSNPrintf | src/vsnprintf.cpp:451-586 | the loop over any legal format writes what `Run` emits, then a NUL, changes nothing else and returns the total, as long as the capacity is not overrun |
| Driver.Loop | src/vsnprintf.cpp:463-580 | position, total, argument cursor and buffer follow `Run` through every iteration |
| Driver.FormatDirective | src/vsnprintf.cpp:477-577 | one directive is parsed, converted and put at the position, and the cursor stops at its conversion character |
| Driver.Convert | src/vsnprintf.cpp:481-577 | every branch of the switch emits the directive's emission and takes its argument |
| Driver.ConvertSigned | src/vsnprintf.cpp:491-509 | signed numbers print their magnitude, negation modulo 2^64 included |
| Driver.ConvertUnsigned | src/vsnprintf.cpp:511-532 | flags and radix are set as each conversion asks, and the number printed |
| Driver.ReadSignedInt | src/vsnprintf.cpp:491-504 | the branch leaves sign, flags and radix of the number's specification |
| Driver.ReadFormatUnsignedInt | src/vsnprintf.cpp:439-449 | unsigned numbers drop space and plus and print |
| Driver.ConvertPointer | src/vsnprintf.cpp:534-549 | a non-null pointer prints in hexadecimal with all its digits unless width or precision is given |
| Driver.FieldsReady | src/vsnprintf.cpp:401-437 | a number directive with an argument of its type fits the 66 characters if and only if width and precision leave it there |
| Driver.ReadSignedNumber | src/vsnprintf.cpp:259-293 | each modifier reads an argument of its type, narrowed only under hh; the value fits the 64-bit result |
| Driver.ReadUnsignedNumber | src/vsnprintf.cpp:295-325 | the same for unsigned types |
| Numbers.NumberToString | src/vsnprintf.cpp:327-399 | writes prefix, zeros and the shortest numeral, cut to size from the left, and never indexes outside the 66 characters |
| Numbers.BuildNumber | src/vsnprintf.cpp:341-390 | the array holds the text backwards |
| Numbers.WriteDigits | src/vsnprintf.cpp:341-350 | the division loop writes the numeral backwards |
| Numbers.AppendZeros | src/vsnprintf.cpp:370-375 | the zeros of the precision follow |
| Numbers.AppendPrefix | src/vsnprintf.cpp:377-390 | the prefix of the alternative form follows |
| Numbers.CopyReversed | src/vsnprintf.cpp:392-396 | the text is copied out in reading order |
| Numbers.TextFits | src/vsnprintf.cpp:401-437 | a 64-bit value's text fits the 66 characters if and only if the zero-filled width, or else precision with sign and prefix, is at most 66 |
| Numbers.LargerArrays | src/vsnprintf.cpp:370-398 | a text that fits is the one that larger arrays would give |
| Numbers.DigitsOf64 | src/vsnprintf.cpp:341-346 | a 64-bit value has at most 22, 20 or 16 digits in radix 8, 10 or 16 |
| Numerals.DigitsValue | src/vsnprintf.cpp:341-350 | the printed numeral denotes the number, uses digits of the radix and has no leading zero |
| Numerals.DigitsShortest | src/vsnprintf.cpp:341-350 | no digit string of the same value is shorter |
| Formatter.PutWithFieldWidth | src/vsnprintf.cpp:209-232 | blanks first are cut to size and text to the rest, blanks last are cut to size only; position advances by the whole padding, and total by padding and length |
| Formatter.FormatNumber | src/vsnprintf.cpp:401-437 | sign, rewritten zero flag, number and justification together emit the number's field |
| Formatter.RewriteZeroFlag | src/vsnprintf.cpp:403-427 | the sign is chosen and width and precision are rewritten as `ZeroRewrite` says |
| Formatter.BuildSigned | src/vsnprintf.cpp:429-435 | the second array holds sign and number |
| Formatter.FormatString | src/vsnprintf.cpp:240-257 | the string, "(null)" for null, is cut to precision and size and justified |
| Formatter.FormatChar | src/vsnprintf.cpp:234-238 | one character is justified |
| Formatter.CharOf | src/vsnprintf.cpp:236 | the character is the argument modulo 256 |
| Parser.ParseNumber | src/vsnprintf.cpp:92-101 | reads the maximal digit run and its value, and no intermediate value overflows an int when the number is at most INT_MAX |
| Parser.ParseFlags | src/vsnprintf.cpp:105-133 | collects exactly the flags whose characters, by the standard's own table, stand in the maximal run of them |
| Parser.ParseWidthField | src/vsnprintf.cpp:135-150 | reads a star argument or a number; after the flag loop the minus branch cannot be reached |
| Parser.ParsePrecisionField | src/vsnprintf.cpp:152-167 | a precision clears the zero flag; a negative literal reads as none |
| Parser.ParseFlagsWidthPrecision | src/vsnprintf.cpp:103-170 | the specification holds exactly the fields of the directive |
| Parser.ParseSizeSpecifier | src/vsnprintf.cpp:172-207 | recognises h, hh, l, ll, z and t |
| Canonical.ParseReadsBack | src/vsnprintf.cpp:103-207 | the text of any canonical specification, wherever it stands, parses to that specification: exactly its flags, printed by the standard's characters in any order and with repeats, its width, its precision, bare and negative ones included, its modifier and its conversion; parsing stops there and takes one argument per star |
| Canonical.FlagsMeant | src/vsnprintf.cpp:105-133 | the characters that the standard gives some flags are read as exactly these flags |
| Canonical.NumberReadBack | src/vsnprintf.cpp:92-101 | a printed number followed by a non-digit is read back and reading stops there |
| Canonical.PrintThenParse | src/vsnprintf.cpp:327-399 | what number_to_string prints in decimal, without flags and precision, reads back as the number |
| FormatSpecs.FormatSpec.Reset | src/vsnprintf.cpp:76-84 | all fields but the total return to their defaults |
| SpinLocks.RunsExclude | include/dux/spin_lock.h:116-152 | in every state of every run of each of the three locks the word is kLocked if and only if exactly one thread is between its acquire and its unlock store |
| SpinLocks.RunsAreSequential | include/dux/spin_lock.h:34-54 | every run gives the results and, when the lock is free, the object of running the calls one at a time in order of acquisition |
| SpinLocks.NextInv | include/dux/spin_lock.h:123-149 | every step of every lock keeps the invariant |
| SpinLocks.NextOtherCalls | include/dux/spin_lock.h:123-149 | while a thread holds the lock, no step of another one touches its call |
| SpinLocks.LogGrows | include/dux/spin_lock.h:34-54 | the order of acquisition only grows at its end |
| SpinLocks.NeverStuck | benchmarks/spin_ttas_vs_tas_bench.cpp:11-71 | in every state each thread has a step |
| SpinLocks.SoloCall | include/dux/spin_lock.h:129-149 | where the lock is free, a call of any of the three locks goes through by its own steps, runs the operation once and leaves the lock free |
| SpinLocks.TakenRefuses | include/dux/spin_lock.h:123-134 | where the lock is taken, try_lock fails and changes nothing, and the load in lock() goes on spinning |
| LockProperties.RunRefinesMutex | benchmarks/spin_ttas_vs_tas_bench.cpp:11-71 | every run of tas_spin_lock, ttas_spin_lock and dux::spin_lock projects to a legal run of one abstract mutex, held at each moment by the same thread |
| LockProperties.FailuresBounded | include/dux/spin_lock.h:129-144 | from any state in which a thread is outside the lock to any later one, its failed attempts in lock() never exceed the acquisitions by other threads in between, so each call is bounded by those during it |
| LockProperties.OvertakenBound | include/dux/spin_lock.h:129-144 | the same for any part of a run, with one acquisition that came just before it |
| LockProperties.TasFailuresUnbounded | benchmarks/spin_ttas_vs_tas_bench.cpp:22-27 | the test-and-set lock has no such bound: for every k a run with k failures against one acquisition |
| LockProperties.CounterExact | include/dux/spin_lock.h:34-54 | a counter incremented by separate read and write inside the lock equals the number of completed increments, and increment i has read i |
| LockProperties.AllocatorLinearizable | src/malloc.cpp:42-76 | calls of the six entry points by any number of threads have the results and final heap of running an arbitrary sequential allocator in acquisition order, which respects the order of completed and later calls |
| Interrupts.UsersAreInnermost | include/dux/spin_lock.h:82-110 | in every reachable state a context that holds or spins for a lock through irq_save_lock_guard is the running one of its CPU with interrupts off, so it never waits for a context it interrupted |
| Interrupts.HoldersUnique | include/dux/spin_lock.h:82-110 | no two contexts hold one lock, on one CPU or several |
| Interrupts.GuardsRestoreFlag | include/dux/spin_lock.h:61-110 | for any nesting of guards and any interleaving the flag is off inside, stays off when an inner guard ends and returns to its starting value when the outermost ends |
| Interrupts.OutermostKeepsFlag | include/dux/spin_lock.h:61-80 | the outermost guard keeps the flag value it found |
| Interrupts.NextInv | include/arch/x86/asm/cpu.h:44-72 | every step of every CPU, interrupts between the two halves of irq_save_disable and irq_disable inside guards included, keeps the invariant |
| Interrupts.OffStaysOff | include/arch/x86/asm/cpu.h:44-66 | in every run, after irq_disable or the second half of irq_save_disable the CPU's interrupts stay off and no handler runs on it until it turns them on, returns from a handler or restores a flag that was on |
| Interrupts.OnStaysOn | include/arch/x86/asm/cpu.h:49-52 | after irq_enable or the return from a handler they stay on, and a handler can run, until the CPU turns them off or a handler begins |
| Interrupts.HandlerIsTransparent | include/dux/spin_lock.h:61-110 | a handler that returns, whatever it, the handlers inside it and other CPUs have done, leaves flag and contexts of its CPU as it has found them |
| Interrupts.GuardRoundTrip | include/dux/spin_lock.h:82-110 | where the lock is free, the five steps of the guard can follow each other; in between interrupts are off and the lock is held, and afterwards flag, contexts and locks are as before |
| Interrupts.PlainGuardDeadlocks | include/dux/spin_lock.h:34-54 | with lock_guard in its place a handler can come to wait for the code it interrupted |
| Interrupts.EnablingInsideDeadlocks | include/arch/x86/asm/cpu.h:49-52 | with irq_enable inside an irq_save_lock_guard, too |
| Interrupts.DeadlockStays | include/dux/spin_lock.h:129-144 | and no step of any CPU ends that |
| ViewLock.ViewsExclude | include/dux/spin_lock.h:123-149 | under release/acquire views, with loads of old values, at most one thread is inside |
| ViewLock.InsideSeesAll | include/dux/spin_lock.h:129-149 | a thread inside has every earlier critical section's writes in its view, and each read returns the value that the steps before it have last written to the location, computed from the steps alone |
| ViewLock.LatestIsLastWritten | include/dux/spin_lock.h:129-149 | whatever the memory orders, the history that a state carries is that of the write steps before it |
| ViewLock.ReadsAreCoherent | include/dux/spin_lock.h:129-149 | whatever the memory orders, a thread's later read of a location, or later load of the lock word, returns no older write |
| ViewLock.RefusedSeesEarlier | include/dux/spin_lock.h:138 | a failed compare-exchange acquires too: the thread has seen every write made before the acquisition that refused it |
| ViewLock.FailuresBounded | include/dux/spin_lock.h:129-144 | however old the values of its relaxed loads, and whatever the memory orders, a thread fails inside lock() at most as often as the others have acquired since the start |
| ViewLock.HandsOver | include/dux/spin_lock.h:129-149 | a run in which the next owner reads the 7 that the first one has written |
| ViewLock.RelaxedReadsStale | include/dux/spin_lock.h:123-149 | without the acquire or without the release a run reads a stale value inside the lock |
| ViewLock.LoadSeesNoData | include/dux/spin_lock.h:132 | the relaxed load of the spin loop adds nothing to what the thread has seen of the data |
| ViewLock.StaleLoadHappens | include/dux/spin_lock.h:132-138 | and can return kFree while another thread holds the lock, so that the attempt after it fails |
| Locking.SpinLock.Lock | include/dux/spin_lock.h:129-144 | on every schedule that frees the lock in the end, lock() returns having found it free and locked it, with no more failed compare-exchanges than acquisitions by others met |
| Locking.SpinLock.TryLock | include/dux/spin_lock.h:123-127 | succeeds if and only if it finds the lock free, and leaves it locked either way |
| Locking.SpinLock.Unlock | include/dux/spin_lock.h:146-149 | frees the lock |
| Locking.Word.CompareExchange | include/dux/spin_lock.h:125-126 | a strong compare-exchange after any actions of the others |
| Locking.IrqSaveLockGuard.constructor | include/dux/spin_lock.h:88-93 | saves the flag, turns interrupts off, takes the lock |
| Locking.IrqSaveLockGuard.Destroy | include/dux/spin_lock.h:95-99 | frees the lock and turns interrupts on only if they were |
| Locking.Cpu.IrqSaveDisable | include/arch/x86/asm/cpu.h:54-66 | returns the old flag and clears it |
| Locking.Cpu.IrqRestore | include/arch/x86/asm/cpu.h:68-72 | sets the flag if it was set, and never clears it |
| Locking.Allocator.Call | src/malloc.cpp:42-76 | a wrapper returns what the allocator does on the heap, and leaves flag and lock as they were |
| Tokens.Tokenize | src/cstring.cpp:343-376 | a full run returns exactly the fields of the original string in order, cuts the memory only after fields, leaves the delimiters alone, and afterwards finds nothing more |
| Tokens.FieldsExact | src/cstring.cpp:256-303 | the fields found are exactly the maximal non-empty delimiter-free stretches of the string, in order and apart |
| Tokens.TokenReads | src/cstring.cpp:362-369 | in the final memory each token is a string equal to its field of the original |
| Tokens.CutsCells | src/cstring.cpp:367-369 | only the cell after each field changes, to NUL |
| Tokens.RunAndOnceMore | src/cstring.cpp:346-362 | after a run one more call with null returns a token if and only if the run had no field and *saveptr held an older string that has one |
| Tokens.StaleToken | src/cstring.cpp:360-362 | a concrete memory where that happens |
| Tokens.StrTokR | src/cstring.cpp:343-376 | one call cuts off and returns the next field and moves *saveptr forward past it, or changes nothing, also with a null saveptr |
| Tokens.GoingOn | src/cstring.cpp:358-373 | each call of a run finds the next field of the original string in the memory cut so far |
| CStrings.StrSpn | src/cstring.cpp:256-270 | the length of the maximal prefix of accepted characters |
| CStrings.StrCSpn | src/cstring.cpp:288-303 | the length of the maximal prefix without rejected characters |
| CStrings.StrChr | src/cstring.cpp:163-175 | the first occurrence of the converted character, the NUL included, or null if and only if there is none |
| CStrings.StrLen | src/cstring.cpp:272-281 | the distance to the first NUL |
| Memory.MemMove | src/cstring.cpp:53-75 | for any offsets and length the destination holds the old source cells and nothing else changes |
| Memory.MemCpy | src/cstring.cpp:37-51 | for any overlap the exact result, which is memmove's for a destination not above the source or disjoint from it |
| Memory.ForwardExact | src/cstring.cpp:37-75 | memcpy and memmove give the same memory if and only if the destination is not above the source or the source repeats with their distance |
| Comparison.LowerThenCompare | posix/posix_strings.cpp:73-103 | for any two strings, overlapping ones included, strcasecmp and strncasecmp return what strcmp and strncmp return after strlwr on both, and that is 0 if and only if the strings, or their beginnings, are the same letters up to case |
| Comparison.StrCaseCmp | posix/posix_strings.cpp:73-86 | the comparison of the lowered strings, 0 if and only if they have equal length and each pair of characters is equal or a letter in its two cases |
| Comparison.StrNCaseCmp | posix/posix_strings.cpp:88-103 | the same for the strings cut to n |
| Comparison.StrLwr | src/cstring.cpp:429-439 | every character of the string is lowered in place and nothing else changes; no capital is left, and the letters are the same up to case |
| Comparison.LowerExact | src/cstring.cpp:429-439 | lowered strings have no capitals and the same letters, and compare as 0 if and only if the originals have the same letters up to case |
| Comparison.StrLoweredTwice | src/cstring.cpp:429-439 | lowering two strings of one memory lowers both, whatever their overlap |
| Comparison.StrCmp | src/cstring.cpp:192-205 | the difference at the first place where the strings differ, else 0 |
| Comparison.StrNCmp | src/cstring.cpp:207-222 | the same on the strings cut to n, which need not be terminated |
| Comparison.CompareMeans | src/cstring.cpp:192-205 | 0 exactly for equal strings, else the difference at a place before which they are equal |
| Comparison.Antisymmetric | src/cstring.cpp:192-205 | exchanging the strings negates the result |
| Comparison.Transitive | src/cstring.cpp:192-205 | the order is transitive, strictly so if one step is strict |
| Comparison.SignMeetsStandard | src/cstring.cpp:192-222 | the sign is that of the comparison as unsigned char if and only if the first differing characters are in the same half |
| Comparison.SignDiffersHappens | src/cstring.cpp:198-200 | the character -1 is less than 'a', and greater as unsigned char |
| Search.StrStr | src/cstring.cpp:318-335 | the first offset where the needle occurs, or null if and only if there is none; empty strings included |
| Search.FoundAt | src/cstring.cpp:328-330 | the comparison made at an offset is 0 if and only if the needle occurs there |
| PosixStrings.BuildString | posix/posix_strings.cpp:31-71 | strlcpy and then any number of strlcat calls of size n leave the first n - 1 characters of the concatenation and change nothing else, and it fits if and only if every call returned less than n |
| PosixStrings.StrLCpy | posix/posix_strings.cpp:31-44 | stores the string cut to size and terminated, nothing for size 0, and returns its length |
| PosixStrings.StrLCat | posix/posix_strings.cpp:46-71 | appends within size and terminates, leaves an unterminated destination alone, and returns the sum of the lengths |
| PosixStrings.BuildStep | posix/posix_strings.cpp:46-71 | cutting after each call is cutting the whole once |

## Left out

- Driver.VSNPrintf: does not cover `%n` (a store through a foreign pointer), null `%p` (its capacity `size - i` is not
  the capacity left), formats that end inside a directive, numbers above INT_MAX in a format, and integer texts above
  66 characters; `Legal` says so.
- Reference.SNPrintf: asks for a buffer that holds what the code stores, which can be more than max_size characters
  where a width does not fit; `RunStaysWithin` says when max_size are enough.
- Standard.RenderMeetsStandard: one direction, because differences can make up for each other in a whole output
  (`CompensatingHappens`); directive by directive it is an equivalence.
- Standard.MeetsStandard: `%p` has no standard text, and a null string, a precision written with a minus sign and flags
  that the standard leaves undefined have none either; what the code prints for them is `Reference.FullText`.
- Driver.ReadSignedNumber: arguments are 64-bit for l, ll, z and t and 32-bit otherwise, and pointers have 16
  hexadecimal digits. That is the 64-bit host; on the i686 target long, ptrdiff_t and pointers have 32 bits, and lines
  268-270 read 64 bits for `%zd` where the caller passes 32.
- Driver.ReadUnsignedNumber: the same widths.
- Formatter.FormatString: strings are values that end, so the read of `strnlen` (src/cstring.cpp:283-286), which goes to
  the NUL even under a precision, past the end of an unterminated array, is not modelled.
- Locking.Allocator.Call: only the caller changes the heap; calls of several threads are `AllocatorLinearizable`.
- Formatter.PutWithFieldWidth: width, length and total are unbounded integers, so overflow of `int` at extreme negative
  widths or huge totals is not modelled.
- Locking.SpinLock.Lock: termination needs a schedule that frees the lock; fairness and starvation are not modelled.
- ViewLock.FailuresBounded: counts from the start of the run, not for any part of it as under the sequential
  consistency of `LockProperties.FailuresBounded`, because relaxed loads can be refused by acquisitions made earlier.
- Interrupts.UsersAreInnermost: sequentially consistent; the order of the two halves of irq_save_disable is modelled,
  compiler and processor barriers are not. Code inside the guards does not turn interrupts on;
  `EnablingInsideDeadlocks` shows why.
- Tokens.Tokenize: the delimiters are one string that the tokenized string does not overlap; a set that changes from
  call to call is covered only call by call, in `StrTokR`.
- PosixStrings.StrLCat: the source must not overlap the destination's cells, as `__restrict__` asks.
- strtok itself, which is strtok_r with a hidden static saveptr.
- The allocator (`mem_malloc` and the others), which is not part of this model: it is an arbitrary function.
- sprintf, which is the formatter with a capacity of 1024.
- `ffs`, `ffsl`, `ffsll`, `strrev`, `strupr`, `strcpy`, `strcat`, `memchr`, `memcmp`, `strdup` and the like: single
  loops whose contracts would only add easy members.
- `strerror`, errno tables, ctype classes beyond digits and letter case, start-up code, abort.
- `atomic.h`, inline assembly, `pause` and `hlt`: load, store, exchange and compare-exchange are primitive steps.
