# JOS kernel monitor, modelled in Dafny

This project models the interactive kernel monitor of a JOS-style teaching
kernel (`kern/monitor.c`). The monitor has five parts:

- **Tokenizer** (`tokenizer.dfy`): `runcmd` splits a NUL-terminated line buffer
  in place. It overwrites whitespace with NUL and records the offset of each
  token in an argument vector of `MAXARGS` (16) slots. On the 16th token it
  gives up.
- **Command table** (`commands.dfy`): the table of `help`, `kerninfo` and
  `change_color`; the first-match lookup `runcmd` performs on it; the `help`
  listing; and the kilobyte rounding `kerninfo` prints.
- **Attribute encoder** (`color.dfy`): `change_color` rebuilds the 16-bit CGA
  attribute word `cga_mode_gv` from the first characters of its three
  arguments. The word is a field of the `Console` class.
- **Dispatcher and loop** (`monitor.dfy`): `runcmd` tokenizes the line and
  invokes the handler its first word names. `monitor` runs lines until a
  handler returns a negative value.
- **Backtrace** (`backtrace.dfy`): `mon_backtrace` walks the saved
  frame-pointer chain. It resolves each return address through the
  debug-information resolver and reads each frame's argument words.

The source works in place, so the model does too:

- the line buffer is an `array<char>` that `Tokenize` overwrites;
- `argv` is a fresh `array<Ptr>` of 16 slots;
- the attribute word is a class field;
- the scans, the lookup, the `help` listing, the argument loop, the frame walk
  and the monitor loop are `while`/`for` loops.

Each of these methods is proved against a specification function on values,
for example:

- `Starts`: the token offsets of a line;
- `Parse`: the parse result;
- `FindCommand`: the first-match lookup;
- `Attribute`: the attribute word;
- `Walk` and `Pcs`: the frame reports and the resolved addresses;
- `Outcome`, `ModeAfter` and `Session`: the results of `runcmd` and the loop.

The lemmas then state what the source promises about these functions.

Backtrace memory is a byte-addressed little-endian `map` from 64-bit
addresses to bytes. Address arithmetic wraps modulo 2^64.

The debug-information resolver `debuginfo_rip` is a function parameter. So
are the starting register values: `read_rbp` gives the frame pointer and
`read_rip` the instruction pointer. The lines `readline` returns are the input
sequence of the monitor loop, with `None` for a NULL read.

Two behaviours of the code are worth stating up front:

- A NULL read does not end the session: the loop at
  `kern/monitor.c:279-284` skips it and reads again, and `RunMonitor` does
  the same.
- Dispatch is not free of state changes: `change_color` rewrites the global
  attribute word, so `RunCmd` states that change (`ModeAfter`).

## Model

| member | source | states |
|---|---|---|
| Tokenizer.StartsBounds | kern/monitor.c:241-256 | every recorded argument offset lies inside the line and points at a non-whitespace character |
| Tokenizer.StartsIncreasing | kern/monitor.c:241-256 | the argument offsets are recorded in strictly increasing order |
| Tokenizer.StartsExactly | kern/monitor.c:241-256 | from a token boundary on, the parse loop records exactly the beginnings of the maximal non-whitespace runs (both directions) |
| Tokenizer.TokensAreRuns | kern/monitor.c:239-257 | the recorded offsets are exactly the starts of the maximal non-whitespace runs of the line (both directions), in strictly increasing order, so the j-th recorded offset is the start of the j-th run |
| Tokenizer.NoTokens | kern/monitor.c:243-246 | a stretch of whitespace records no argument |
| Tokenizer.ReadBack | kern/monitor.c:243-244 | after the whitespace is overwritten, the C string read at a token start is exactly that token of the original line |
| Tokenizer.ArgumentsVerbatim | kern/monitor.c:253-255 | every recorded argument reads back as the original run of characters |
| Tokenizer.SkipSpaces | kern/monitor.c:243-244 | the gobble loop overwrites whitespace with NUL up to the next non-whitespace character or the end, and skips no token |
| Tokenizer.SkipToken | kern/monitor.c:254-255 | the scan loop stops at the end of the token and changes nothing |
| Tokenizer.Tokenize | kern/monitor.c:239-257 | with k < 16 runs the result is argc == k, argv[j] is at the j-th run and argv[k] is NULL; the 16th token aborts with TooMany; whitespace before the NUL (before the aborting token, on abort) becomes NUL and everything else is unchanged |
| Commands.FindFrom | kern/monitor.c:262-265 | the lookup returns the first entry whose name matches, or None when no entry matches |
| Commands.NamesUnique | kern/monitor.c:26-30 | the registered names are pairwise distinct |
| Commands.FindCommandExact | kern/monitor.c:262-265 | the lookup returns entry i exactly when entry i's name equals the command word |
| Commands.Lookup | kern/monitor.c:262-265 | the strcmp loop finds the first matching entry |
| Commands.MonHelp | kern/monitor.c:35-43 | one (name, description) line per entry in table order; returns 0 |
| Commands.FootprintKB | kern/monitor.c:56-57 | ROUNDUP(size, 1024) / 1024 is the size in KB rounded up: kb * 1024 lies in [size, size + 1024) |
| Color.Attribute | kern/monitor.c:101-217 | the attribute is foreground, background and cursor bits in disjoint fields; each field reads back the encoding of its character; the low byte is 0 and the word lies within mask 0xF700 |
| Color.MixedColours | kern/monitor.c:127-181 | white is red, green and blue together; yellow is red and green, for foreground and background |
| Color.Console.ChangeColor | kern/monitor.c:92-223 | the attribute word becomes the encoding of the first characters of argv[1..3], whatever its prior value; returns 0 |
| Backtrace.Load | kern/monitor.c:84-86 | a little-endian load of n bytes is below 256^n |
| Backtrace.Load32 | kern/monitor.c:84 | an `int` argument slot holds a 32-bit value |
| Backtrace.ArgWords | kern/monitor.c:83-84 | the i-th argument word is the 32-bit load at rbp - 4*i, for i = 1..n |
| Backtrace.OffsetAdds | kern/monitor.c:81 | the printed offset `rip - rip_fn_addr`, taken modulo 2^64, added back to the function start gives rip |
| Backtrace.FrameReport | kern/monitor.c:76-84 | a frame's report carries its rbp, its rip, the resolver's file, line, name and argument count, an offset that adds back to rip, and max(narg, 0) argument words read at rbp - 4*i |
| Backtrace.WalkLength | kern/monitor.c:72-89 | over an n-frame chain the walker makes n reports and n resolver queries |
| Backtrace.WalkAt | kern/monitor.c:72-89 | the j-th report is the report of frame j with the j-th resolved address, and the walk from there on is the walk over the rest of the chain |
| Backtrace.LinkAt | kern/monitor.c:85-86 | the next frame is the word saved at rbp, and the next resolved address is the word saved at rbp+8 |
| Backtrace.ChainUnique | kern/monitor.c:72-89 | memory alone determines the frame chain from a frame pointer |
| Backtrace.ChainAcyclic | kern/monitor.c:72 | a zero-terminated chain visits no frame twice |
| Backtrace.WalkReports | kern/monitor.c:72-89 | the walker reports every frame of the chain once, in chain order, each with a nonzero frame pointer (rbp 0 is never dereferenced) and its resolved address |
| Backtrace.WalkLinks | kern/monitor.c:65-89 | the resolved addresses are the starting rip, then each frame's saved word at rbp+8, in chain order; the last frame saved a zero frame pointer |
| Backtrace.WalkStep | kern/monitor.c:72-87 | one iteration reports the current frame and continues from the saved frame pointer and return address, over a strictly shorter chain |
| Backtrace.ReadArgs | kern/monitor.c:83-84 | the argument loop reads the words at rbp - 4*i for i = 1..narg |
| Backtrace.MonBacktrace | kern/monitor.c:61-90 | the walker returns 0 and produces exactly the reports of the walk over the chain |
| Monitor.FirstToken | kern/monitor.c:263 | the command word compared by strcmp is non-empty and contains no whitespace |
| Monitor.DispatchRules | kern/monitor.c:249-267 | an empty line or one with 16 or more tokens returns 0 and leaves the attribute word alone; the result is undefined exactly for change_color with fewer than three arguments; only change_color with three or more arguments changes the attribute word, to the encoding of their first characters |
| Monitor.DispatchByName | kern/monitor.c:260-267 | the entry invoked is the one named by the command word (both directions); an unknown word invokes nothing and returns 0 |
| Monitor.BlankLine | kern/monitor.c:260-261 | an all-whitespace line has no tokens, invokes nothing, returns 0 and leaves the attribute word alone |
| Monitor.RunCmd | kern/monitor.c:231-268 | runcmd gobbles the buffer as the parse loop does; the entry it invokes is exactly the dispatched one (the first whose name equals argv[0], none for an empty, overlong or unknown line); the `help` listing is returned when help is invoked and is empty otherwise; the result is the invoked handler's result unchanged (0 when none is invoked); the attribute word is left as the dispatched command sets it |
| Monitor.SessionWaits | kern/monitor.c:279-284 | the loop keeps reading exactly when every read is NULL or runs to a non-negative result |
| Monitor.SessionStopsAt | kern/monitor.c:279-284 | the loop stops at the first non-NULL line whose runcmd result is negative (or undefined), and at no earlier read |
| Monitor.NeverExits | kern/monitor.c:231-285 | with the shipped table no handler (they return 0 at lines 42, 58 and 221) and no path of runcmd (lines 251, 261, 267) returns a negative value, so the loop never exits |
| Monitor.RunMonitor | kern/monitor.c:270-285 | the loop stops, and leaves the attribute word, as the session over the reads does |

## Left out

- Console output (`cprintf`) is not modelled. This covers the banner, "Too many arguments", "Unknown command", the `kerninfo` symbol table, the `change_color` echo lines and the backtrace's printing. Instead, `MonHelp` and `RunCmd` return the `help` listing as a value, and `MonBacktrace` returns the backtrace reports. The `%016x` formatting of the argument words is not modelled either.
- `mon_kerninfo`'s linker symbols (`_start`, `entry`, `etext`, `edata`, `end`) are addresses the model cannot see. Only its footprint arithmetic (`FootprintKB`) and its return value 0 are modelled.
- `readline` and its static buffer are not part of this model. The loop receives the lines as a finite sequence. When that sequence runs out, `RunMonitor` ends with `Waiting`, where the source would block for more input.
- The trap frame argument is not modelled: no modelled handler reads it.
- `read_rbp`, `read_rip` and `debuginfo_rip` are parameters of `MonBacktrace`. The DWARF lookup behind the resolver and its ignored return value are not part of this model.
- Backtrace.MonBacktrace: its precondition assumes a zero-terminated frame chain over readable memory. The source has no cycle cap or range check, so on a cyclic chain it loops forever or faults; the model does not describe that behaviour.
- Color.Console.ChangeColor: requires four arguments. With fewer, the source dereferences a NULL or unset argv slot, which is undefined behaviour. `RunCmd` reports that case as `Undefined` instead of calling the handler.
- Color.Console.ChangeColor: `cga_mode_gv` is a signed `short`. The model keeps its 16-bit pattern (`bv16`), so setting bit 15 yields 0x8000 rather than the implementation-defined negative value.
- `ex1.c` is not part of this model.
