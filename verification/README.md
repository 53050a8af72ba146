# Verified models of the gnulib layer

This project models the algorithms of the vendored gnulib files that do real work on
platforms without a system version, and proves what their documentation and comments
promise.  Each module stands beside one group of C files:

| module | models |
|---|---|
| Digits | decimal and hexadecimal numerals, shared by the printers and parsers |
| Bits, Powers, Modular, TwosComplement | C's bitwise operators on unsigned integers of any width; powers; Euclidean division; conversion to a type of given width |
| Wrappers | a value that may be absent |
| InetPton, InetNtop | text forms of IPv4 and IPv6 addresses |
| Getopt | the resumable option scanner that permutes argv in place |
| GetoptGrammar | what a command line means by the declarations of its options |
| Signals, Sigactions | POSIX signal blocking and sigaction over a one-shot `signal` |
| Memchr | word-at-a-time search for a byte |
| Frexp | mantissa and exponent by repeated squaring and binary descent |
| PrintfParse | printf format strings, the typed argument table, and fetching the arguments |
| PrintfGrammar | the grammar of printf format strings, which the parser is proved to follow |
| Intprops | overflow predicates, wrapping stores, and the length of printed integers |
| Dupfd | duplication of a descriptor at or above a bound |
| Malloca | memory from the stack or the heap, told apart by the address |

The C code that changes state step by step is imperative here as well: arrays, classes and
loops, proved against functions on values.  The laws - round trips, exact acceptance,
invariants of whole runs, conservation - are lemmas about these functions.

## How the code and the specifications meet

- The address parsers are proved equal to scanners on strings, and these accept exactly the
  texts that denote an address; the printer's text denotes its address, so the two round-trip.
- A scan of argv has a plan, a function of the elements and the configuration.  Every call
  of getopt is proved to deliver the next report of the plan and to keep the state from which
  the rest follows.  What the plan is follows from a grammar that only uses the declarations of
  the options: every command line has exactly one reading, and the plan is its meaning.
- The signal layer refines a state of mask, pending set, handlers and log.  A run is any
  sequence of calls, arrivals and rounds of the loops that raise signals, so a handler may
  call the interface between two rounds.  The second layer does the same for sigaction.
- A format string has two independent specifications, one for the text and one for the table
  of types; the parser, which interleaves them and may run out of memory, is proved equal to both.
  A grammar that does not mention scanning says which texts these are, and what they mean.
- The macros of intprops are kept as expressions with a type and a value, where the value can
  be missing (undefined behaviour), so that their proofs also show that nothing they evaluate
  overflows.  Operands of different types are converted as C converts them.
- Nondeterminism of the environment (where memory is allocated, which descriptor is opened,
  whether a call fails) is a nondeterministic choice or a parameter without constraints.  Where
  a promise depends on it, a constant says what the environment does: MEMORY_LASTS, or the
  fields `lowest` and `willing` of a process.

## Where code and documentation differ

- `gnulib/inet_pton.c:165` says that "::" in a full address is ignored; the code refuses such
  a text (`gnulib/inet_pton.c:251-252`), as FullGapRefused states for all of them.
- `gnulib/inet_ntop.c:134` compares the length of the text without its NUL with the size, so a
  size equal to the length passes; InetNtop4 states what the destination must have room for,
  TerminatedUnlessFull when the NUL is outside of the size.
- `gnulib/signal.in.h:353-354` says that a handler may not be changed while its signal is
  blocked; the code supports this (`gnulib/sigprocmask.c:308-325`), and so does the model.
- `gnulib/sigaction.c:78-79` says that an entry is empty when the signal is not handled by
  sigaction_handler.  This fails for the SIGPIPE that gnulib defines itself, with
  SA_RESETHAND: nobody uninstalls the handler (`gnulib/sigprocmask.c:332-348`).  The exact
  condition is in AfterConsistency and, over runs, in AgreeThroughout; the programs that are safe
  are in NeverAborts, and the failure is in SecondSigpipeAborts.
- `gnulib/malloca.c:48-49` checks that 2A - 1 fits a byte, but the distance stored can be 2A.
  The exact condition under which the stored distance is right is in DistanceFits and MMalloca.
- `gnulib/intprops-internal.h:344-347` promises the range predicates for operands of any integer
  types.  The one for addition can report an overflow that is none when the operands meet in an
  unsigned type.  AddRange has the operands, AddExactForTypes the exact condition on the types,
  and AddMisjudges an example; subtraction and multiplication keep the promise.
- `gnulib/fcntl.c:51-53` promises the first available slot.  The code takes the first one that the
  system offers; Dupfd proves that it is the first available one if the system opens the lowest
  free descriptor.

## Model

| member | source | states |
|---|---|---|
| `Digits.WeightIsTableIndex` | gnulib/inet_pton.c:174-198 | The weight of a hexadecimal digit is its index in the table of digits, for letters of either case. |
| `InetPton.Pton4AcceptsExactlyPrinted` | gnulib/inet_pton.c:101-154 | A string of any length is accepted as an IPv4 address exactly if it is the printed form of the result: leading zeros, missing octets, trailing dots and every other text are refused. |
| `InetPton.InetPton4` | gnulib/inet_pton.c:112-154 | The parser returns 1 and stores four octets, or returns 0 and leaves the destination alone; nothing else is written. |
| `InetPton.Scan4Sound` | gnulib/inet_pton.c:121-153 | Whatever the scanner accepts is the text it has consumed, printed back from the octets read. |
| `InetPton.ShiftToEnd` | gnulib/inet_pton.c:242-259 | The overlapping shift by hand turns left bytes and right bytes into left bytes, zeros, right bytes; no byte is lost or duplicated. |
| `InetPton.ScanInto` | gnulib/inet_pton.c:190-241 | The main loop of the IPv6 parser reads the groups, the position of "::" and a final dotted quad into the temporary. |
| `InetPton.InetPton6` | gnulib/inet_pton.c:171-264 | Returns 1 and fills 16 octets exactly when the text denotes an address, else returns 0 and leaves the destination alone. |
| `InetPton.Pton6Sound` | gnulib/inet_pton.c:184-263 | Every accepted text is a sequence of hexadecimal groups of value at most 0xffff, perhaps a final dotted quad, with at most one "::"; 16 bytes without it, fewer with it. |
| `InetPton.Pton6CompleteFull` | gnulib/inet_pton.c:184-263 | Every such text without "::" that denotes 16 bytes is accepted with these bytes. |
| `InetPton.Pton6CompleteGap` | gnulib/inet_pton.c:184-263 | Every such text with "::" that denotes fewer than 16 bytes is accepted with zeros in the place of "::". |
| `InetPton.Pton6AcceptsExactlyDenoted` | gnulib/inet_pton.c:158-264 | The two directions in one: accepted with result b if and only if the text denotes b (section 2.2 of RFC 4291, with groups bounded by value, not by digits). |
| `InetPton.FullGapRefused` | gnulib/inet_pton.c:242-252 | A text with "::" between sides that already denote 16 bytes is refused. |
| `InetPton.EightGroupsAndGap` | gnulib/inet_pton.c:242-252 | So "1:2:3:4::5:6:7:8" is refused. |
| `InetPton.TextExamples` | gnulib/inet_pton.c:190-241 | "1::2" is 00 01, twelve zeros, 00 02. |
| `InetNtop.ChosenIsUnique` | gnulib/inet_ntop.c:177-206 | At most one run meets the rule for compression: leftmost of the longest runs of zero words, length at least two (section 4.2 of RFC 5952). |
| `InetNtop.LongestZeroRun` | gnulib/inet_ntop.c:177-206 | The loop finds that run, or reports that there is none. |
| `InetNtop.ChosenExamples` | gnulib/inet_ntop.c:177-206 | A single zero word is not compressed, the longer of two runs is, and of equal ones the first. |
| `InetNtop.Text6Means` | gnulib/inet_ntop.c:208-244 | Ten zero bytes and 0xffff print as "::ffff:" and a dotted quad; twelve zero bytes, but not fourteen, as "::" and a dotted quad; every other address as its words in hexadecimal, with "::" for the chosen run. |
| `InetNtop.Text6Looks` | gnulib/inet_ntop.c:225-236 | A dot is written for exactly those two kinds of addresses, and no capital letter for any. |
| `InetNtop.RoundTrip6` | gnulib/inet_ntop.c:151-256 | For every address the parser reads the printed text back as that address, dotted-quad forms included; this holds for any run of zero words written as "::", the one that the code chooses among them. |
| `InetNtop.Text6Injective` | gnulib/inet_ntop.c:208-244 | Different addresses print differently. |
| `InetNtop.Text6Fits` | gnulib/inet_ntop.c:161 | The text and its NUL fit in the 46 bytes of the temporary. |
| `InetNtop.Format6` | gnulib/inet_ntop.c:208-244 | The formatting loop builds exactly that text, one word at a time. |
| `InetNtop.InetNtop4` | gnulib/inet_ntop.c:124-141 | Stores the dotted quad and a NUL exactly if the text is no longer than the size. |
| `InetNtop.TerminatedUnlessFull` | gnulib/inet_ntop.c:134-140 | After a success of inet_ntop4 the size given holds a terminated string if and only if the text is not exactly as long as the size. |
| `InetNtop.ZerosAreNotTerminated` | gnulib/inet_ntop.c:134-140 | The address 0.0.0.0 with size 7 is stored without its NUL inside the size. |
| `InetNtop.InetNtop6` | gnulib/inet_ntop.c:151-256 | Stores the text and its NUL exactly if both fit the size, with the run that the rule chooses, and what is stored reads back as the address; else the destination is untouched. |
| `Getopt.Scanner.Exchange` | gnulib/getopt.c:130-183 | The in-place exchange is a rotation: the processed options move in front of the skipped non-options, both keep their order, everything else stays, and the indices describe the moved non-options. |
| `Getopt.SwapBlocks` | gnulib/getopt.c:151-173 | Two blocks of equal length change places. |
| `Getopt.RotatedAt` | gnulib/getopt.c:121-129 | Where each element of a rotated range comes from. |
| `Getopt.RotatedIsPermutation` | gnulib/getopt.c:121-129 | A rotation loses and duplicates nothing. |
| `Getopt.SearchLong` | gnulib/getopt.c:210-311 | The two searches for a long option give the match that the specification gives. |
| `Getopt.LongMatchMeaning` | gnulib/getopt.c:210-311 | An exact name always wins; an abbreviation is accepted exactly when all options it may stand for agree (and, for long-only use, when there is just one). |
| `Getopt.Scanner.ProcessLongOption` | gnulib/getopt.c:193-379 | A long option reports what the specification of one step says and consumes what it says. |
| `Getopt.Scanner.DashW` | gnulib/getopt.c:629-656 | "-W foo" is read as the long option foo. |
| `Getopt.Scanner.ShortOption` | gnulib/getopt.c:611-702 | One option character, its argument if it takes one, and the text that stays pending. |
| `Getopt.Scanner.Regroup` | gnulib/getopt.c:500-516 | Non-options skipped before are rotated behind the options read since. |
| `Getopt.Scanner.Skip` | gnulib/getopt.c:518-524 | Further non-options join the range of those skipped. |
| `Getopt.Scanner.TakeDashes` | gnulib/getopt.c:526-543 | "--" ends the options: it joins them, and everything behind it becomes an operand. |
| `Getopt.Scanner.StopAtEnd` | gnulib/getopt.c:545-555 | At the end optind backs up to the first operand. |
| `Getopt.Scanner.Element` | gnulib/getopt.c:557-609 | An option element is taken as a long option, or its first option character is read. |
| `Getopt.Scanner.Initialize` | gnulib/getopt.c:383-415 | The first call fixes the ordering and empties the range of non-options. |
| `Getopt.Scanner.GetoptInternal` | gnulib/getopt.c:473-703 | In any sequence of calls without interference, each call gives the next report of the plan, makes progress, keeps argv a permutation, and -1 comes with argv arranged as the plan says. |
| `Getopt.ScanAll` | gnulib/getopt.c:746-812 | The usual loop: all reports up to the first -1, then argv is the program name, the options with their arguments, the operands; optind is at the first operand. |
| `Getopt.PlanKeepsOrder` | gnulib/getopt.c:417-433 | Options with their arguments and operands together are the original elements, both in original order. |
| `Getopt.PlanInPlace` | gnulib/getopt.c:557-566 | Without permutation no element moves. |
| `Getopt.PlanOperands` | gnulib/getopt.c:507-543 | When permuting, the operands are non-options followed by everything after the "--" that was scanned; with GetoptGrammar.PlanOptions, they are exactly these. |
| `GetoptGrammar.ConfigMeans` | gnulib/getopt.c:394-409 | A leading "-" of optstring asks for every non-option in its place, a leading "+" stops at the first one, and without either POSIXLY_CORRECT decides; the rest of optstring declares the options. |
| `GetoptGrammar.MatchDenotes` | gnulib/getopt.c:210-311 | The searches find exactly the option that the name denotes: the first exact one, or else the first that it abbreviates if all that it abbreviates agree. |
| `GetoptGrammar.LongStepMeans` | gnulib/getopt.c:193-379 | For "name" and "name=value" and each has_arg: which elements are taken, and the value returned, longind, the variable set, and "?" or ":" with its optopt. |
| `GetoptGrammar.ShortStepMeans` | gnulib/getopt.c:611-702 | For an option character: nothing, an optional or a required argument, or "W;", as the characters behind it in optstring declare; "?" and ":" with their optopt. |
| `GetoptGrammar.LongElementIs` | gnulib/getopt.c:567-606 | "--foo" is a long option; for long-only use "-foo" is one unless it can only be short options. |
| `GetoptGrammar.PlanOptions` | gnulib/getopt.c:473-703 | Every command line can be read as option elements with exactly the elements and reports that their declarations give them, operands, and what "--" or the first operand ends; the plan reports and arranges just that, for all three orderings. |
| `GetoptGrammar.ReadingUnique` | gnulib/getopt.c:417-467 | It can be read in one way only. |
| `GetoptGrammar.ReadingIsPlan` | gnulib/getopt.c:473-703 | So any reading of a command line by the declarations is what the scan reports and how it arranges argv. |
| `GetoptGrammar.RequiredArgument` | gnulib/getopt.c:657-697 | With "o:", "-o file" reports o with the argument file and leaves no operand. |
| `Bits.BitMeans` | gnulib/sigprocmask.c:253-255 | Bit i of a set is (set >> i) & 1. |
| `Signals.SigIsMember` | gnulib/sigprocmask.c:113-127 | On the sets that can be built, membership means membership, with the alias of SIGABRT resolved. |
| `Signals.SigEmptySet` | gnulib/sigprocmask.c:129-134 | The empty set. |
| `Signals.SigAddSet` | gnulib/sigprocmask.c:136-154 | Adds exactly one signal, or fails out of range; the alias never gets into a set. |
| `Signals.SigDelSet` | gnulib/sigprocmask.c:156-174 | Removes exactly one signal, or fails out of range. |
| `Signals.SigFillSet` | gnulib/sigprocmask.c:177-182 | All signals but the alias, for any number of signals up to 32; the unsigned arithmetic may wrap. |
| `Signals.SignalLayer.ExtSignal` | gnulib/sigprocmask.c:93-110 | Exchanges the handler of one signal, SIGPIPE included, or fails. |
| `Signals.SignalLayer.BlockedHandlerRuns` | gnulib/sigprocmask.c:191-202 | Reinstalls itself and records the signal as pending; handlers as seen by the program do not change. |
| `Signals.SignalLayer.SigPending` | gnulib/sigprocmask.c:204-215 | Reports exactly the pending signals. |
| `Signals.SignalLayer.Arrive` | gnulib/sigprocmask.c:191-202 | An arrival over one-shot `signal` does what POSIX says: pending if blocked, else ignored, fatal, or handled once. |
| `Signals.SignalLayer.RaiseSigpipe` | gnulib/sigprocmask.c:332-348 | The same for SIGPIPE, whose handler is not uninstalled. |
| `Signals.SignalLayer.Raise` | gnulib/raise.c:48-61 | raise delivers by one of these two ways. |
| `Signals.SignalLayer.Signal` | gnulib/sigprocmask.c:292-330 | Installs and returns the handler that the program sees, whether or not the signal is blocked; never shows blocked_handler. |
| `Signals.SignalLayer.Block` | gnulib/sigprocmask.c:251-262 | Blocking one signal changes the mask only, and nothing if the system does not know the signal. |
| `Signals.SignalLayer.Unblock` | gnulib/sigprocmask.c:269-281 | Unblocking one signal restores its handler; the abort is unreachable. |
| `Signals.BlockThenUnblock` | gnulib/sigprocmask.c:248-249 | Blocking what is new and unblocking what is not wanted amounts to the requested mask. |
| `Signals.SignalLayer.ChangeMask` | gnulib/sigprocmask.c:221-282 | The new mask is the requested one among the signals known to the system; what is pending and unblocked is released, the rest stays pending. |
| `Signals.SignalLayer.SigProcMask` | gnulib/sigprocmask.c:221-290 | The whole call refines the POSIX step followed by the released signals in ascending order. |
| `Signals.SignalLayer.Resume` | gnulib/sigprocmask.c:284-287 | One more round of the raising loop raises the next released signal, whatever handlers did in between. |
| `Signals.SignalLayer.Run` | gnulib/sigprocmask.c:185-330 | Any interleaving of calls, arrivals and raising loops, with handlers that use the interface themselves, refines the POSIX machine. |
| `Signals.RaisedOnce` | gnulib/sigprocmask.c:284-287 | Released signals reach, once each and in order, the handlers installed at the time of release. |
| `Signals.UnblockingDeliversOnce` | gnulib/sigprocmask.c:264-288 | A change of the mask delivers each pending signal it unblocks exactly once, delivers no other, and leaves exactly the others pending, when no handler interferes; UnblockedIsSeenOnce is the law for runs in which handlers do. |
| `Signals.MaskAfter` | gnulib/sigprocmask.c:229-247 | SIG_BLOCK adds the set to the mask, SIG_SETMASK replaces the mask by it, SIG_UNBLOCK removes it; without a set, or for any other operation, the mask stays. |
| `Signals.ChangeReleases` | gnulib/sigprocmask.c:264-288 | A change of the mask takes exactly the pending signals that it unblocks out of the pending set and sets them aside to be raised in ascending order; handlers stay. |
| `Signals.BlockedAndUnblocked` | gnulib/sigprocmask.c:229-247 | Blocking signals that are not blocked and then unblocking them restores the mask. |
| `Signals.InstalledOnce` | gnulib/sigprocmask.c:292-330 | The handler installed is what the next call returns; no other signal changes; the call fails exactly for a bad number, SIG_ERR or a signal that the system does not know. |
| `Signals.ArrivesTwice` | gnulib/sigprocmask.c:332-348 | Two arrivals: a handler runs for the first and is uninstalled, but that of SIGPIPE runs for both; ignored signals and default actions as usual. |
| `Signals.ArrivesBlocked` | gnulib/sigprocmask.c:191-202 | A blocked signal becomes pending once, however often it arrives, and nothing else changes. |
| `Signals.UnblockedIsSeenOnce` | gnulib/sigprocmask.c:264-288 | Over every run that begins with SIG_UNBLOCK of a set that has the signal, or SIG_SETMASK to one that has not, a pending signal is seen exactly once or still waits unseen, whatever handlers do between the rounds, if it does not arrive again and is never ignored. |
| `Signals.NothingInvented` | gnulib/sigprocmask.c:185-290 | In no run is a signal seen, pending or owed by a raising loop more often than it arrived. |
| `Signals.NothingLost` | gnulib/sigprocmask.c:264-288 | In no run is a signal lost: one that is pending, or released and not yet raised, goes on waiting until it has been seen, whatever handlers do between the rounds of a raising loop, unless it becomes ignored. |
| `Signals.SeenExactlyOnce` | gnulib/sigprocmask.c:264-288 | In every run, interleaved or not, a signal that waits once, does not arrive again and is never ignored is seen exactly once, or still waits unseen. |
| `Signals.LayerIsSound` | gnulib/sigprocmask.c:184-202 | Every state of the class is one of those that the laws of runs start from. |
| `Signals.BlockedIsHeld` | gnulib/sigprocmask.c:191-202 | While a signal stays blocked none of its handlers runs, and an arrival is remembered, over every run. |
| `Signals.ContinueFinishes` | gnulib/sigprocmask.c:284-288 | A raising loop left to itself finishes as the whole call does. |
| `Sigactions.ActionLayer.SigactionHandlerStarts` | gnulib/sigaction.c:83-117 | sigaction_handler up to the user handler: reinstalls itself or clears the entry, blocks what the action asks for, or aborts on an empty entry. |
| `Sigactions.ActionLayer.Lock` | gnulib/sigaction.c:148-161 | While sigaction works every signal is blocked, and arrivals only become pending. |
| `Sigactions.ActionLayer.Query` | gnulib/sigaction.c:162-177 | Reading the old action changes no handler. |
| `Sigactions.ActionLayer.Establish` | gnulib/sigaction.c:179-195 | Installing changes the two tables for one signal, or nothing on failure. |
| `Sigactions.HandlerStarts` | gnulib/sigaction.c:100-120 | When the handler of an action starts, a signal is blocked exactly if it was, or is in sa_mask, or is the signal itself and SA_NODEFER is not set; SA_RESETHAND clears the entry, and without it handler and entry stay. |
| `Sigactions.EmptyEntryAborts` | gnulib/sigaction.c:90-96 | An arrival for which the table has no entry aborts, after the default action of SIGABRT has been restored if it was SIGABRT. |
| `Sigactions.StaysBlocked` | gnulib/sigaction.c:112-122 | Over every run that does not end what was in progress, and whose moves do not unblock the signal, a blocked signal stays blocked and unseen, through nested handlers and loops; an arrival becomes pending. |
| `Sigactions.NotReentered` | gnulib/sigaction.c:112-122 | Without SA_NODEFER a handler is not entered again until it returns or somebody unblocks its signal: further arrivals only become pending. |
| `Sigactions.Reentered` | gnulib/sigaction.c:112-122 | With SA_NODEFER a second arrival enters the handler again. |
| `Sigactions.QueryReports` | gnulib/sigaction.c:162-177 | An action that was installed is reported as it is; a signal without an entry is reported with its handler, both SA_RESETHAND and SA_NODEFER, and the empty mask. |
| `Sigactions.ActIsReported` | gnulib/sigaction.c:162-195 | What a call installs is what the next one reports, SIG_DFL and SIG_IGN included, and the reports about other signals stay. |
| `Sigactions.FailureChangesNothing` | gnulib/sigaction.c:135-140 | A call fails exactly for a bad number, SIG_ERR, or a signal that the system does not know, and then changes no handler and no action. |
| `Sigactions.ArrivalsAreHeld` | gnulib/sigaction.c:148-161 | A signal that arrives while sigaction works is pending afterwards if it is blocked, and else among those raised next. |
| `Sigactions.AroundLock` | gnulib/sigaction.c:142-161 | Changing an action with everything blocked is the same as changing it at once. |
| `Sigactions.ActionLayer.SigAction` | gnulib/sigaction.c:130-204 | Up to its last loop, which it leaves to be run: the mask is that of the entry on every path; failure exactly in the documented cases; the old action reported and the new one installed as specified, for any signals arriving meanwhile. |
| `Sigactions.ActionLayer.Run` | gnulib/sigaction.c:83-204 | Any interleaving of sigaction, sigprocmask, arrivals and handlers refines the specification. |
| `Sigactions.ArriveConsistency` | gnulib/sigaction.c:100-110 | From agreeing tables no arrival aborts; the tables agree afterwards if and only if the arrival does not reset a SIGPIPE action with SA_RESETHAND. |
| `Sigactions.AfterConsistency` | gnulib/sigaction.c:78-80 | The same for every move of a run: this is the only move that separates the action table from the handlers. |
| `Sigactions.AgreeThroughout` | gnulib/sigaction.c:78-117 | Over every run, the tables agree at the start and after every move if and only if no move lets through a SIGPIPE whose action SA_RESETHAND resets; as long as they agree nothing aborts. |
| `Sigactions.NeverAborts` | gnulib/sigaction.c:90-96 | Over every run in which SIGPIPE is never given SA_RESETHAND, an entry is set exactly when the handler is sigaction_handler, and sigaction_handler never aborts. |
| `Sigactions.LayerIsSound` | gnulib/sigaction.c:78-117 | Every state of the class, with any handlers and loops in progress, is one of those that the laws of runs start from. |
| `Sigactions.StartNeverAborts` | gnulib/sigaction.c:78-117 | The runs of the class from a state without installed actions keep the tables in agreement and never abort, as long as SIGPIPE is not given SA_RESETHAND. |
| `Sigactions.SecondSigpipeAborts` | gnulib/sigprocmask.c:332-348 | From every state with SIGPIPE unblocked, an action with SA_RESETHAND for SIGPIPE followed by two SIGPIPEs aborts the process. |
| `Sigactions.PureQuery` | gnulib/sigaction.c:162-177 | A call without a new action changes no handler, no action, no mask. |
| `Sigactions.InstalledIsReported` | gnulib/sigaction.c:104-110 | An installed action is reported unchanged until another is installed or, with SA_RESETHAND, until its handler first runs. |
| `Sigactions.MaskComesBack` | gnulib/sigaction.c:83-204 | Over every run of what has started in a state, with nested handlers, calls and loops in any order, what was in progress before stays as it was, and when all of it is done the mask is that of the start. |
| `Sigactions.SigactionReturns` | gnulib/sigaction.c:130-204 | When sigaction really returns, after the loop that raises what has arrived and whatever handlers that has run, the mask is that of the call. |
| `Sigactions.SigactionEnds` | gnulib/sigaction.c:130-204 | It does return: when nothing more happens, its last loop and the handlers of that come to an end, unless the process aborts. |
| `Sigactions.HandlerRestoresMask` | gnulib/sigaction.c:112-122 | While a handler runs its mask and its signal are blocked; when it returns, whatever it did, the mask is that at the arrival, and so it is after everything that its return has released. |
| `Memchr.TestDetectsZeroByte` | gnulib/memchr.c:111-140 | For words of any number of bytes, ((w - 0x01..01) & ~w & 0x80..80) != 0 exactly if some byte of w is zero. |
| `Memchr.TestDetectsByte` | gnulib/memchr.c:144-147 | After xor with the repeated byte the test detects exactly the words that hold it. |
| `Memchr.Doubling` | gnulib/memchr.c:92-107 | Or-ing a word with itself shifted doubles the number of repeated bytes, truncated to the word. |
| `Memchr.ShlTwice` | gnulib/memchr.c:97-98 | Shifting by 31 and 1 is shifting by 32. |
| `Memchr.Constants` | gnulib/memchr.c:89-109 | The constants repeat their byte in every position, for every word size of at least four bytes. |
| `Memchr.Memchr` | gnulib/memchr.c:58-169 | Returns the first index below n that holds the byte, or none, for every buffer, length, alignment, word size and byte order. |
| `Frexp.FrexpUnique` | gnulib/frexp.c:57-168 | There is only one pair m, e with 0.5 <= m < 1 and m * 2^e = x. |
| `Frexp.SquareUp` | gnulib/frexp.c:88-110 | Squaring up stops within the table, fills it with 2^2^i and 2^-2^i, and keeps x * 2^exponent = argument. |
| `Frexp.SquareDown` | gnulib/frexp.c:122-146 | The same downwards, ending with 2^-2^i <= x < 1. |
| `Frexp.Frexp` | gnulib/frexp.c:57-168 | frexp returns that pair, for both signs, and zero unchanged. |
| `Frexp.PrintfFrexpUnique` | gnulib/printf-frexp.c:66-190 | There is only one pair that printf_frexp may return, so its two forms agree. |
| `Frexp.PrintfFrexpNormal` | gnulib/printf-frexp.c:66-85 | The mantissa is at least 1 exactly if the argument is at least the least normal number, and below that the exponent is the least one. |
| `Frexp.OneIsSplit` | gnulib/frexp.c:57-168 | The number 1 is 0.5 * 2^1 for frexp and 1.0 * 2^0 for printf_frexp. |
| `Frexp.PrintfFrexpByLibrary` | gnulib/printf-frexp.c:74-85 | The form with frexp and ldexp returns this pair. |
| `Frexp.SquareDownTo` | gnulib/printf-frexp.c:122-148 | The downward loop never passes the least exponent and fills the slots it leaves behind. |
| `Frexp.DescendTo` | gnulib/printf-frexp.c:150-163 | The descent towards the least exponent uses filled slots only. |
| `Frexp.DescendBelowTwo` | gnulib/printf-frexp.c:169-182 | The last descent ends below 2 and keeps the invariant. |
| `Frexp.PrintfFrexpByLoops` | gnulib/printf-frexp.c:87-183 | The form with the loops returns this pair. |
| `PrintfParse.XSum` | gnulib/xsize.h:69-83 | The sum saturates, although it is computed with wrap-around. |
| `PrintfParse.XTimes` | gnulib/xsize.h:107-114 | The product saturates. |
| `PrintfParse.ReadPosition` | gnulib/printf-parse.c:144-166 | "n$" is an argument index, refused if 0 or too large; the number is that of the digits even when the accumulation saturates. |
| `PrintfParse.ReadNumber` | gnulib/printf-parse.c:156-158 | The accumulated value is the number written, or SIZE_MAX from there on. |
| `PrintfParse.ReadFlags` | gnulib/printf-parse.c:168-210 | Exactly the flags that the text shows. |
| `PrintfParse.Arguments.Register` | gnulib/printf-parse.c:91-123 | A demand is entered in the table, refused if the argument has another type, and can run out of memory only beyond the direct table. |
| `PrintfParse.ReadStar` | gnulib/printf-parse.c:215-252 | The argument of a width or precision, by position or in turn, registered as an int. |
| `PrintfParse.ReadDirective` | gnulib/printf-parse.c:128-652 | One directive is read and its demands are entered, or it is refused exactly when it is malformed or in conflict. |
| `PrintfParse.Directives.Append` | gnulib/printf-parse.c:654-674 | The directive is stored and there is room for the sentinel again. |
| `PrintfParse.PrintfParse` | gnulib/printf-parse.c:71-688 | Accepts exactly the meaningful strings, stores their directives, argument types, longest width and precision, and the sentinel; it can run out of memory only for long texts or high argument numbers, and only if a request for memory is refused or a size overflows. |
| `PrintfParse.TableAnswers` | gnulib/printf-parse.c:91-123 | The table exists exactly if no argument is used with two types; it is as long as the highest index and has a type exactly where one is demanded. |
| `PrintfParse.AtRefusal` | gnulib/printf-parse.c:690-704 | After a refusal nothing that follows could make the string valid; out of memory means that the tables outgrow their first size, and that a request is refused or a size overflows. |
| `PrintfParse.DirectivesCover` | gnulib/printf-parse.c:125-684 | Directives come in the order of the text, do not overlap, start at a "%", and no "%" is outside of them. |
| `PrintfParse.ArgumentNumbering` | gnulib/printf-parse.c:228-252 | Indexes that the text does not name are 0, 1, 2, ... from left to right; the others are as named. |
| `PrintfParse.StarsTakeArguments` | gnulib/printf-parse.c:212-326 | A width or a precision has an argument if and only if its text ends in a star. |
| `PrintfParse.ArgumentsAreTyped` | gnulib/printf-parse.c:328-635 | The type of each argument is that of its conversion and of the size specifiers that begin where flags, width and precision end. |
| `PrintfParse.SizeSpelling` | gnulib/printf-parse.c:328-561 | What is read as a size specifier is the longest one that the text has there, none only if none is there, and it has the meaning that the table of specifiers gives it. |
| `PrintfParse.EveryTypeIsSpelled` | gnulib/printf-parse.c:328-635 | Every argument type of the platform has a spelling that is read whole and demands it. |
| `PrintfParse.ParsedTypes` | gnulib/printf-parse.c:637-650 | All width, precision and argument indexes are in the table with the demanded type; an entry without a type is one that no directive uses. |
| `PrintfParse.RefusedExactly` | gnulib/printf-parse.c:690-704 | A string is refused if and only if a directive cannot be read or an argument is used with two types. |
| `PrintfGrammar.ConversionSame` | gnulib/printf-parse.c:561-635 | The scanner has exactly the conversions of the grammar, each with its type for every size specifier and platform, and the letter recorded. |
| `PrintfGrammar.FlagSame` | gnulib/printf-parse.c:168-210 | The scanner has exactly the flag characters of the grammar. |
| `PrintfGrammar.DirectiveRead` | gnulib/printf-parse.c:128-652 | A text that has a well-formed directive - position, flags, width, precision, size specifier and conversion as the grammar writes them - is read as just this directive, and everything recorded of it is what its pieces mean. |
| `PrintfGrammar.DirectiveWritten` | gnulib/printf-parse.c:128-652 | Whatever is read as a directive is written as a well-formed one. |
| `PrintfGrammar.FormatRead` | gnulib/printf-parse.c:125-684 | Every text made of copied characters and well-formed directives is read as that. |
| `PrintfGrammar.LexesExactlyFormats` | gnulib/printf-parse.c:125-684 | The directives of a text can be read if and only if the text is made of copied characters and well-formed directives. |
| `PrintfGrammar.FormatMeans` | gnulib/printf-parse.c:71-704 | Such a text has the directives of its pieces, and the table of the types that they demand; it is refused exactly if an argument is used with two types. |
| `PrintfGrammar.AcceptedExactly` | gnulib/printf-parse.c:71-704 | A text is accepted if and only if it is a format whose directives agree on the types of the arguments. |
| `PrintfGrammar.LongestMeans` | gnulib/printf-parse.c:212-326 | The longest width and precision that are reported are those of the text, in characters, with the period and the star. |
| `PrintfGrammar.FormatUnique` | gnulib/printf-parse.c:125-684 | The grammar is unambiguous: a text is made of copied characters and directives in one way only. |
| `PrintfParse.FetchArgs` | gnulib/printf-args.c:38-303 | Succeeds exactly if no entry lacks a type; entries take the arguments in order, narrowed as C does; null strings are replaced. |
| `PrintfParse.StoredMeans` | gnulib/printf-args.c:48-192 | An integer narrower than int, the fast types and wint_t included, is kept modulo its width on the platform, and unchanged if it fits; any other is kept as it is. |
| `PrintfParse.StoredByType` | gnulib/printf-args.c:48-192 | Type by type, for signed and unsigned char, short, intN, fast intN and wint_t: the value is in the range of a type of that width and signedness and congruent to the argument, or the argument itself where the type is no narrower than int. |
| `PrintfParse.StoredUnchanged` | gnulib/printf-args.c:62-181 | Arguments of all other types but strings are kept as they are. |
| `PrintfParse.MinusOneAsChar` | gnulib/printf-args.c:48-53 | An int -1 is kept as -1 for a signed char and as 255 for an unsigned one. |
| `PrintfParse.StoredStrings` | gnulib/printf-args.c:192-217 | A string argument is never kept as a null pointer, and another pointer is kept as it is. |
| `PrintfParse.UnnamedArgumentsFetch` | gnulib/printf-args.c:38-303 | A well-formed string without "$" always parses, uses each argument once, and its arguments can be fetched. |
| `Intprops.AddRange` | gnulib/intprops-internal.h:344-364 | For operands of any two types and every range, no evaluated part overflows, and the answer is whether a + b leaves the range - except for a negative operand that meets one beyond the range in an unsigned type with a negative sum in the range, which is reported as outside. |
| `Intprops.AddExactForTypes` | gnulib/intprops-internal.h:344-364 | For two types and a range the macro is exact on all operands if and only if the operands meet in a signed type, or the range starts at 0, or no operand can be less than -tmax - 1. |
| `Intprops.AddMisjudges` | gnulib/intprops-internal.h:350-364 | An int -300 and an unsigned 200, stored in a signed char: the sum -100 is in the range, and overflow is reported. |
| `Intprops.SubtractRange` | gnulib/intprops-internal.h:344-376 | For operands of any two types and every range, true exactly when a - b leaves the range; no evaluated part overflows. |
| `Intprops.MultiplyRange` | gnulib/intprops-internal.h:344-397 | The same for a * b, with the least value and -1 among the operands. |
| `Intprops.NegateOverflowMeans` | gnulib/intprops-internal.h:320-321 | The negation test with the extrema computed from the type of its argument. |
| `Intprops.NegateRange` | gnulib/intprops-internal.h:99-103 | True exactly when -a leaves the type. |
| `Intprops.SignedMaximumMeans` | gnulib/intprops-internal.h:52-63 | The shift expressions give the extrema of the type without overflowing. |
| `Intprops.IntAddRange` | gnulib/intprops.h:114-117 | The simple form for a whole type is exact and safe. |
| `Intprops.IntSubtractRange` | gnulib/intprops.h:121-124 | The same for subtraction. |
| `Intprops.IntMultiplyRange` | gnulib/intprops.h:135-146 | The same for multiplication. |
| `Intprops.IntDivideRange` | gnulib/intprops.h:150-151 | The same for truncating division. |
| `Intprops.IntLeftShiftRange` | gnulib/intprops.h:168-171 | The same for left shifts below the width. |
| `Intprops.WrapIsLowOrder` | gnulib/intprops-internal.h:341-342 | Computing in a wider unsigned type and converting gives the low-order bits of the exact result. |
| `Intprops.OpCalc` | gnulib/intprops-internal.h:305-308 | For operands of any types and any type of result, stores the low-order bits and reports overflow exactly when they are not the whole result, up to the additions that AddRange names. |
| `Intprops.OpWrapvSmallish` | gnulib/intprops-internal.h:250-257 | The same when the macro does not know whether the stored type is signed. |
| `Intprops.LogBound` | gnulib/intprops.h:52-54 | log10(2) < 146/485, on integers. |
| `Intprops.BitsBound` | gnulib/intprops.h:52-55 | 2^b < 10^((146 b + 484) / 485) for every b >= 1. |
| `Intprops.BitsTight` | gnulib/intprops.h:52-54 | For 1 <= b < 2621 the bound cannot be less: 2^b exceeds the power of ten below it. |
| `Intprops.StrlenBoundIsTight` | gnulib/intprops.h:52-54 | For b up to 2621, the largest number of b bits has as many digits as the bound if and only if b < 2621. |
| `Intprops.PrintedWithinBound` | gnulib/intprops.h:57-68 | Every value of every type, the least one included, prints within INT_STRLEN_BOUND characters. |
| `Intprops.BoundIsNeeded` | gnulib/intprops.h:57-68 | Below 2621 bits the bound of a type is attained, by the least value of a signed type with its sign and by the greatest of an unsigned one. |
| `Intprops.ExtremaOfType` | gnulib/intprops-internal.h:52-63 | The extrema of a C type are those of two's complement with as many values. |
| `TwosComplement.Extrema` | gnulib/intprops-internal.h:260-269 | The least and the greatest value of the types of 8 and 16 bits. |
| `Intprops.AssumedSigned` | gnulib/intprops.h:63-65 | Taking an unsigned type for a signed one overestimates by at most one. |
| `Dupfd.MarksAreExact` | gnulib/fcntl.c:61-62 | The bytes in use determine the set of marked descriptors. |
| `Dupfd.Remember` | gnulib/fcntl.c:132-143 | Marks one more descriptor and clears the bytes up to it on first use; the abort is unreachable. |
| `Dupfd.Fill` | gnulib/fcntl.c:83-144 | Opens descriptors until one is high enough; the marked ones are exactly the others; at most newfd + 1 rounds. |
| `Dupfd.CloseMarked` | gnulib/fcntl.c:146-160 | Closes exactly the marked descriptors and keeps errno. |
| `Dupfd.Dupfd` | gnulib/fcntl.c:51-160 | Success adds exactly one descriptor, at least newfd, for the object of oldfd, and the first free one from newfd on if the system opens the lowest free descriptor; it fails only for bad arguments, for lack of a free descriptor, or because the system refuses; failure changes no descriptor; no handle is lost. |
| `Malloca.OffsetIs` | gnulib/malloca.c:66-81 | The pointer is A modulo 2A and 1 to 2A bytes into its block; 2A exactly when the block starts at A modulo 2A. |
| `Malloca.DistanceFits` | gnulib/malloca.c:44-50 | The byte holds the distance unless A is 128 and the block starts at 128 modulo 256. |
| `Malloca.DistanceLost` | gnulib/malloca.c:44-50 | In that case the distance 256 is stored as 0. |
| `Malloca.MaskTells` | gnulib/malloca.c:110-117 | The two masks of freea test the address modulo A and modulo 2A. |
| `Malloca.Allocator.MMalloca` | gnulib/malloca.c:52-103 | It fails exactly if the size overflows or the heap has no room; else the piece is inside its block and, unless the byte cannot hold the distance, freea will find the block. |
| `Malloca.Allocator.MallocA` | gnulib/malloca.h:85-90 | A small piece comes from the stack, is 0 modulo 2A and inside what alloca gave; a large one comes from mmalloca. |
| `Malloca.Allocator.FreeA` | gnulib/malloca.c:105-127 | Frees exactly the block of a heap piece, nothing for a stack piece or NULL, and aborts exactly on addresses that are not multiples of A. |
| `Malloca.Allocator.Run` | gnulib/malloca.c:52-127 | For any program that obtains, fills and gives back pieces in any order, no freea aborts, and the heap ends with exactly the blocks it had before and those still in use. |

## Left out

- Branches that forward to the system (the system's inet_pton, inet_ntop, memchr, sigprocmask; the CHERI and KLIBC branches; the rest of fcntl): no algorithm of their own.
- InetPton.InetPton4, InetPton6: the address families and errno of the entry points, which only dispatch.
- InetNtop.InetNtop4: requires room for the NUL whenever the text itself passes the size check, because the code does not check for it.
- Getopt: messages, the set of ambiguous names kept for them and its allocation, opterr, and the lookup of POSIXLY_CORRECT, which is a parameter; a caller that moves optind or changes argv between calls; an option whose value is -1, which could not be told from the end of the scan.
- Signals, Sigactions: arrivals in the middle of a call, which the source itself calls races (between the calls, and while sigaction blocks everything, they are arbitrary); errno; sets with the bit of SIGABRT_COMPAT, which the set operations cannot build; programs that mix signal and sigaction, which `gnulib/sigaction.c:49-52` excludes.  After the default action a real process has ended; the model logs it and goes on, so a real run is the part of a model run up to there.
- Sigactions.NeverAborts: for runs that give SIGPIPE the flag SA_RESETHAND the property is false, see SecondSigpipeAborts.
- Frexp.Frexp: NaN, infinity and rounding; arithmetic is exact, for magnitudes from 2^-2^30 up to 2^2^30, which include all of double and long double.
- PrintfParse.PrintfParse: flags are a set of characters instead of an int of bits; a directive is built as a value and stored in its slot when complete; freeing the tables after a failure is not modelled.
- PrintfParse.FetchArgs: va_arg is a function from positions to values.
- Intprops: builtins of the compiler and preprocessor selection; with typeof the wrapping store knows the type and is OpCalc.
- Intprops.AddRange, Intprops.OpCalc: for the operands of Wraps the property is false, see AddMisjudges.
- Intprops.IntLeftShiftRange: assumes that a right shift of a negative number is arithmetic, as the macro does.
- Dupfd.Dupfd: the mapping of system errors to errno (an error is any of the four codes), and the registration of the copy for fchdir.
- Malloca: stack memory has addresses but no contents; contents of fresh memory are one arbitrary value; platforms without alloca, where malloca is malloc.
- Small neighbours (alloca, fd-hook, nanosleep, FILETIME conversions, socket and stdio wrappers, headers of declarations) would only add easy members.
