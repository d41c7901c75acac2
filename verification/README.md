# JOS lab 1: models and proofs

This project models the logic of a small teaching kernel (JOS, lab 1) and of two programs around
it, and proves what that logic achieves.  `dafny verify dfyconfig.toml` checks all of it.

* **Symbol lookup** (`kern/kdebug.c`): `Stab`, `StabSearch`, `StabTheorems`, `StabBlocks`,
  `Debuginfo`, `SymbolTable`, `SymbolReport`.  `stab_binsearch` and `debuginfo_eip` as written, against plain
  linear scans, these against a lookup on the structure (files of functions of lines) that a compiler flattens
  into the table, and every field of the report against the entries of that structure.
* **Console output** (`kern/console.c`): `Terminal`, `Console`, `Escape`, `Rendition`, `Colours`.  The screen
  buffer as a window on a document that only grows, and the escape-sequence parser against a grammar with
  lookahead; `Colours` says in numbers what the sequences do to the two colours.  The sequences are those of
  ECMA-48, section 5.4 (control sequences) and section 8.3.117
  (select graphic rendition), plus the code's 90-97 and 100-107.
* **Console input** (`kern/console.c`, `lib/readline.c`): `ConsBuf` (ring buffer), `Keyboard` (shift
  state) and `Keymap` (its tables), `EditedLine` (what keys make of a line), `Readline` (the editor with echo).
* **Formatting and parsing** (`lib/printfmt.c`, `lib/string.c`): `Digits`, `Printfmt` (meaning), `Directives`,
  `Vprintfmt` (the interpreter), `FormatGrammar` and `FormatMeaning` (directives as one writes them, and what
  they print), `Sprintbuf`, `Strtol`, `StrtolGrammar` (numbers as one writes them), `RoundTrip`.
* **Memory and booting** (`lib/string.c`, `boot/main.c`): `Memory`, `Memset`, `Boot`, `BootTheorems`, `ElfImage`
  (an encoder of the ELF format, and what becomes of its images).
* **Monitor and grading script** (`kern/monitor.c`, `gradelib.py`): `Monitor`, `CommandLine` (lines as one types
  them), `LineMonitor`.
* `Int32` is the machine's arithmetic, `CStrings` the strings of C; `Slices` holds two facts about sequences.

State that the C code updates in place is held in classes and arrays; each method is tied by its
`ensures` to a function of the old state, and the theorems are about those functions.  What such a function
computes is stated once more without it: in terms of a grammar, an encoder, the history of inputs, or plain numbers.

`int` and `long` have 32 bits, and the models wrap around as the i386 code does (`Int32.Wrapped`), although C
leaves signed overflow undefined.  It matters for numbers that are read digit by digit (by `strtol`, by the
escape parser, as width or precision of a directive) and for the count of `vsnprintf`.

## Where the code and its comments disagree

The models follow the code.

* After an exact hit `stab_binsearch` looks for the address one higher (kern/kdebug.c:80).  It overshoots
  (`Overshoots`) when an entry one above is still in the window at the first exact hit, or the address is the
  highest of all, and then ends at the wrong entry, unless the address is 0xFFFFFFFE and a second wrap happens to
  lead back to the right one (`Repaired`).  `ExactCondition` states both directions.
* Its comment says that an empty region means that the address is in no entry (kern/kdebug.c:33-34).  The
  region is empty only when there is no entry of the type at all (`EmptyExactly`); with all entries above the
  address it is not, and with the first of those at index 0 the left end becomes -1, so that the caller reads
  before the table (`LeavesTable`; the outcome `Fault` of `Lookup`).  The same can happen in a search for the
  highest address.
* The second half of the condition at kern/kdebug.c:60 is never true and is left away.
* An address before the first function of its file is reported as lying in a function with the
  file's name (`FunctionReported`).
* `'-'` in a directive pads on the left with `'-'` characters, and the sign comes before the padding
  (lib/printfmt.c:108, lib/printfmt.c:193).  `SignedRoundTrip` and its neighbours say which numbers can
  still be read back.
* A width cannot start with a zero, and neither can a precision: in "%5.0s" the zero is a padding flag, and the text
  is not cut off (`ReadNoPrecision`; lib/printfmt.c:113, lib/printfmt.c:118-132).  A precision of 0 can only come
  from a `*`.  After a negative width from a `*`, a point makes the width 0 (`ReadStars`).
* DEL, unlike backspace, is not ignored on an empty line: the test for an erase key asks for a character to erase,
  and DEL then passes the test for printable characters (lib/readline.c:22-26, `NoEffect`).
* `strtol` gives no sign of an overflow (lib/string.c:278).  A kernel address printed with `%p` comes back as a
  negative number with the same bits (`PointerRoundTrip`).
* "It doesn't matter, we load in increasing order" (boot/main.c:86-87) needs more than increasing
  order: see `IncreasingIsNotEnough` and `AllSegmentsLoaded`.
* Space or zero padding is said to be for numbers only (lib/printfmt.c:12-13); the code pads strings too.

## Model

| member | source | states |
|---|---|---|
| StabSearch.StabBinsearch | kern/kdebug.c:50-94 | terminates on every table, sorted or not, even when `addr` wraps, and leaves the two ends where the specification has them |
| StabSearch.Step | kern/kdebug.c:56-82 | a turn of the loop shrinks the window, or it was an exact hit and the next turn is not one: the measure behind termination without any assumption |
| StabSearch.NoNeighbourNoOvershoot | kern/kdebug.c:75-81 | no overshooting unless the address and the one above, or the highest address, are both among the entries |
| StabTheorems.RunCut | kern/kdebug.c:56-82 | on any table, sorted or not, a search that does not overshoot ends between two neighbouring entries, one at or below the address and one above |
| StabTheorems.BinaryIsLinear | kern/kdebug.c:50-94 | on a sorted region, without overshooting, both ends equal those of a linear scan, in all three cases (found, no entry, all above) |
| StabTheorems.ExactCondition | kern/kdebug.c:13-32 | on a sorted region, for every address, the search gives what the linear scan gives, and the last entry at or below the address if there is one, if and only if it does not overshoot or a second wrap repairs that |
| StabTheorems.OvershootEnds | kern/kdebug.c:72-93 | where a search that overshoots ends: before its first hit at the highest address, before the first hit of that at the one below, and past the right entry at any other |
| StabTheorems.OvershootExample | kern/kdebug.c:75-81 | a sorted region of two entries on which the wrong one is found |
| StabTheorems.WrapRepairs | kern/kdebug.c:75-81 | at the last but one address such a second wrap can happen |
| StabTheorems.EmptyExactly | kern/kdebug.c:84-85 | on any table the region is left empty if and only if it has no entry of the type |
| StabTheorems.LeavesTable | kern/kdebug.c:72-74 | on a sorted table the left end becomes -1 if and only if the table starts with an entry of the type that is above the address, or that is at the highest address, which is the one searched for, with no other entry of the type up to the middle |
| Debuginfo.Eipdebuginfo.DebuginfoEip | kern/kdebug.c:104-211 | fills all fields and returns as the composition of the three searches and two scans says, for every table, string table and address |
| Debuginfo.Strfind | lib/string.c:111-118 | the offset of the first occurrence, or of the end |
| Debuginfo.IndexOfFirst | lib/string.c:109-118 | that offset is the first occurrence if there is one |
| SymbolTable.LinearIsStruct | kern/kdebug.c:134-211 | nested linear scans of a flattened table give what the structured lookup gives, for every address |
| SymbolTable.EndToEnd | kern/kdebug.c:104-211 | `debuginfo_eip` on any well-formed table equals the structured lookup: last file, last function, last line at or below, nearest source name before, parameters counted up to the last entry |
| SymbolTable.FunctionReported | kern/kdebug.c:152-161 | the function reported by `debuginfo_eip` is the last of the file at or below the address; if and only if all start above it, and there are any, the file itself is reported |
| SymbolReport.LineReported | kern/kdebug.c:157-186 | the line reported by `debuginfo_eip` is that of the last line entry of the function (or of what precedes the first one) whose offset, added to the function's start (or the file's), does not exceed the address |
| SymbolReport.NoLineReported | kern/kdebug.c:183-186 | if all lines start above the address, the entry they belong to stands in for one; if there are none, the lookup fails |
| SymbolReport.RelativeIs | kern/kdebug.c:158 | the address searched for, added to the start, is the address again, around the whole range |
| SymbolReport.SourceReported | kern/kdebug.c:194-199 | the file reported is named by the last entry of the file, up to the line's, for an included file or a file with an address |
| SymbolReport.ArgsReported | kern/kdebug.c:204-208 | the number of arguments is the length of the run of parameters right after the function's entry, its last entry not looked at |
| SymbolReport.NameLengthReported | kern/kdebug.c:170 | the name's length leaves out what follows its first colon |
| SymbolReport.NameIs | kern/kdebug.c:155-156 | a name is the text in the string table from its index up to the NUL |
| Memory.Memmove | lib/string.c:141-169 | all four assembly paths leave the destination equal to a snapshot of the source and all else unchanged, for any overlap and alignment |
| Memory.MemmoveC | lib/string.c:187-205 | the same for both loops of the C version |
| Memory.FirstThenRest | lib/string.c:160-167 | copying upward is right when the source does not lie below and overlap |
| Memory.LastThenRest | lib/string.c:149-159 | copying downward is right when the source does not lie above |
| Memset.Memset | lib/string.c:121-139 | both assembly paths set exactly the cells asked for to the low byte; a word of four copies is the same as four bytes |
| Memset.FilledAt | lib/string.c:121-139 | every cell asked for holds the byte, and every other what it held |
| Terminal.CellParts | kern/console.c:167-168 | a character on the screen keeps its code and has the current attribute beside it |
| Terminal.ForegroundSet | kern/console.c:439-444 | the foreground becomes the low four bits of any number, the background and the zero low byte stay |
| Terminal.BackgroundSet | kern/console.c:446-451 | the background becomes the low four bits of any number, the foreground and the zero low byte stay |
| Terminal.PlainChanges | kern/console.c:190-193 | an ordinary character changes the cursor's cell and no other, and the cursor moves on by one, over the end of the screen too |
| Terminal.RowChanges | kern/console.c:177-182 | newline and return lead to the start of the next and of the current row and change no cell |
| Terminal.BackspaceChanges | kern/console.c:171-176 | a backspace leads back by one cell and leaves a space in the current attribute there and nothing else changed; at the top of the screen it does nothing |
| Terminal.NewRowBlank | kern/console.c:199-201 | the row that scrolling brings in holds spaces in the current attribute |
| Terminal.TabIsSpaces | kern/console.c:183-189 | a tab shows and sends five spaces, through the whole console |
| Terminal.HistoryKept | kern/console.c:195-203 | over any run of output, whatever has scrolled off never changes |
| Console.ShiftRows | kern/console.c:199-201 | the overlapping copy and the clearing loop drop the first row and add a blank one |
| Console.Console.ScrollIfNeeded | kern/console.c:195-203 | the buffer stays the last 2000 cells of the document, one row longer now; the cursor keeps its place in that |
| Console.Console.CgaPutc | kern/console.c:163-210 | one character on the screen, tabs recursing through the console, position below 2000 again |
| Console.Console.ConsPutc | kern/console.c:454-531 | one character given to the console: parser, both ports, screen; earlier history a prefix of the new |
| Escape.StreamMeaning | kern/console.c:454-531 | for every byte stream from idle, the parser shows and sends what the tokens of the stream mean, and is idle again unless the stream ends within a sequence |
| Escape.FieldExact | kern/console.c:484-488 | the number read from a field is the one written there if and only if an `int` can hold it |
| Rendition.PortsFilter | kern/console.c:454-531 | both ports get the stream without control sequences, ESC and its successor literally, five spaces after each tab |
| Rendition.TextSent | kern/console.c:527-530 | text without escapes goes to both ports byte by byte, five spaces after every tab |
| Rendition.AttributeOfStream | kern/console.c:494-519 | the attribute after any stream is what its rendition sequences alone make of it |
| Rendition.NumbersEncoded | kern/console.c:484-495 | parameters written with semicolons read back if and only if an `int` can hold each of them, left out ones as 0 |
| Rendition.RenditionRoundTrip | kern/console.c:481-519 | a rendition sequence sends nothing, returns to idle, and applies the first four parameters, which an `int` can hold, in order |
| Colours.OneParameter | kern/console.c:498-516 | in colour numbers, for every parameter: 0 gives 7 on 0, 1 adds 8 to a foreground below 8, 30+k and 90+k set the foreground to k and k+8, 40+k and 100+k the background, each leaving the other; any other number changes nothing |
| Colours.ColoursAfter | kern/console.c:497-516 | after any parameters each colour is the one set last, or else the old one, the foreground made bright if it is dark and a 1 follows |
| Colours.SequenceColours | kern/console.c:454-520 | the same for the bytes of a rendition sequence and its first four parameters; without any, as for a 0; nothing else is left of it |
| Colours.StreamColours | kern/console.c:454-520 | the same for all rendition sequences of any byte stream |
| Rendition.CharsPrinted | lib/printfmt.c:48-49 | the decimal parameters are written as `printnum` writes them |
| Readline.EchoAdds | lib/readline.c:26-29 | echoing a character extends the text shown after the prompt, also across a scroll |
| Readline.EchoErases | lib/readline.c:22-25 | echoing a backspace takes the last one away and never stops at the top of the screen |
| EditedLine.PlainLine | lib/readline.c:26-29 | up to 1023 keys, none a control code or DEL, are the line as they are |
| EditedLine.EraseUndoes | lib/readline.c:22-29 | a character with room, followed by backspace or DEL, leaves the line as it was |
| EditedLine.NoEffect | lib/readline.c:22-35 | what changes nothing: control codes but backspace, backspace on an empty line, characters on a full one; DEL on an empty line is stored |
| EditedLine.EditedIsKept | lib/readline.c:17-36 | after any keys the line is, in order, the keys that put in a character and are not matched by a later erase |
| Readline.Readline | lib/readline.c:7-37 | after any keys the buffer holds the keys put in and not erased, the screen shows exactly that after the prompt, and the cursor can go back over it; newline or return terminates it with NUL |
| ConsBuf.ConsoleBuffer.ConsIntr | kern/console.c:396-408 | exactly the nonzero characters are stored; positions stay the counts modulo 512 |
| ConsBuf.ConsoleBuffer.ConsGetc | kern/console.c:411-430 | takes the first of the last (stored - taken) mod 512 characters, or 0 when there is none |
| ConsBuf.NonZeroIs | kern/console.c:401-404 | what is stored of the input: no zero, everything else in order, wherever the input is cut in two |
| ConsBuf.QueueHead | kern/console.c:423-427 | the slot to be read holds the head of that queue |
| ConsBuf.QueueIsRest | kern/console.c:404-406 | the queue is everything not yet taken if and only if fewer than 512 characters wait |
| ConsBuf.FirstInFirstOut | kern/console.c:388-430 | over any run with at most 511 waiting, characters come out once each, in order, none lost |
| Keyboard.Keyboard.KbdProcData | kern/console.c:316-366 | the character returned, the shift state kept, and the machine reset exactly for delete with control and alt held |
| Keyboard.ShiftHistory | kern/console.c:227-242 | after any codes: escape bit from the last byte, modifier bits from their last event, lock bits from the parity of presses, with escaped and plain codes as the tables have them |
| Keyboard.KeysHeld | kern/console.c:227-242 | in raw scan codes: SHIFT, CTL or ALT is on if and only if the last code from one of its keys was a press; a lock if and only if its key was pressed an odd number of times |
| Keymap.LetterKeys | kern/console.c:244-310 | the tables agree on every index: a letter, its capital and its control code, or no letter at all |
| Keyboard.LetterTyped | kern/console.c:350-356 | a letter key gives its control code with control, else a capital if and only if just one of shift and caps lock is on |
| Keyboard.OtherTyped | kern/console.c:350-356 | caps lock makes no difference to any other key |
| Keymap.ShiftedKeys | kern/console.c:244-284 | at every index the shifted table has the other character of the key: capital, symbol, or the same one |
| Keyboard.SymbolTyped | kern/console.c:350-356 | a key that is no letter gives the control table's entry with control, the other character of the key with shift, else its plain one |
| Keyboard.Rebooting | kern/console.c:358-363 | with control held, only the delete key counts as that, whatever the state of caps lock |
| Vprintfmt.Printnum | lib/printfmt.c:35-50 | padding first, then the numeral, for any width |
| Vprintfmt.PrintText | lib/printfmt.c:175-188 | a string, cut off by the precision, masked, padded left or right |
| Vprintfmt.ReadModifiers | lib/printfmt.c:104-156 | the `goto reswitch` loop finds the conversion, the flags, and the arguments left |
| Directives.ModifiersMean | lib/printfmt.c:104-156 | that is the last '-' or '0' used as a flag, the number of 'l', whether there is a '#', and one argument less for each '*' |
| FormatGrammar.ModifiersRead | lib/printfmt.c:104-156 | a directive spelled from flags, points, stars and numerals is read as spelled: the width is the first number or point that is not negative, the precision the last number after that, or -1; padding, length, alternate form and arguments likewise |
| FormatGrammar.Decomposed | lib/printfmt.c:104-156 | the modifiers of every directive in every format can be spelled like that |
| FormatMeaning.ReadBoth | lib/printfmt.c:117-151 | flags, a numeral w, a point, a numeral p: width w, precision p |
| FormatMeaning.ReadWidth | lib/printfmt.c:117-151 | flags and a numeral w: width w, precision -1 |
| FormatMeaning.ReadPrecision | lib/printfmt.c:117-151 | flags, a point, a numeral p: width 0, precision p |
| FormatMeaning.ReadNoPrecision | lib/printfmt.c:113-151 | a zero after the point gives no precision |
| FormatMeaning.ReadStars | lib/printfmt.c:135-151 | both from arguments, signed; after a negative width the point makes it 0 |
| FormatMeaning.ReadStar | lib/printfmt.c:135-151 | a width from an argument, negative ones included |
| FormatMeaning.UnsignedShown | lib/printfmt.c:200-229 | through the whole interpreter: an unsigned number fills at least the width, digits in base 10, 8 or 16 at the end, padding before them |
| FormatMeaning.SignedShown | lib/printfmt.c:190-229 | the same for a signed number's magnitude, after a minus for negative ones |
| FormatMeaning.DigitsShown | lib/printfmt.c:48-49 | digits are 0 to 9 and then small letters |
| FormatMeaning.TextShown | lib/printfmt.c:174-188 | a string is cut off at the precision and fills at least the width, on the side that the padding says; "(null)" for none |
| FormatMeaning.PointerShown | lib/printfmt.c:214-229 | a pointer: "0x", then its bits in base 16 like any number |
| FormatMeaning.CharacterShown | lib/printfmt.c:158-161 | a character, or the percent sign, whatever the modifiers |
| FormatMeaning.ErrorShown | lib/printfmt.c:163-172 | each error code, of either sign, prints its text; any other number follows "error" |
| FormatMeaning.PlainShown | lib/printfmt.c:92-96 | text up to a percent sign comes out as it is |
| Vprintfmt.UnknownDirective | lib/printfmt.c:236-241 | a directive with an unknown conversion, rewound and printed, is its own text |
| Vprintfmt.Vprintfmt | lib/printfmt.c:82-244 | for every format and argument list emits the rendering of the recursive specification and uses the same arguments, with widths and precisions on 32 bits; the index never passes the NUL |
| Vprintfmt.ErrorDirective | lib/printfmt.c:168-169 | what the error conversion prints for unknown codes is what "error %d" renders |
| Vprintfmt.StringDirective | lib/printfmt.c:170-171 | "%s" renders a string, of no more characters than an `int` can count, as it is |
| Sprintbuf.Vsnprintf | lib/printfmt.c:262-285 | stores the first min(len, n - 1) characters and a NUL, nothing else, and returns len as an `int`; an error for no buffer or n < 1 |
| Sprintbuf.StoredAsIs | lib/printfmt.c:262-268 | characters from -128 to 127 are stored as they are; others with the same low eight bits |
| Strtol.StrToL | lib/string.c:239-284 | value, on 32 bits, and end pointer as the grammar blanks, sign, prefix, digits says |
| StrtolGrammar.LiteralRead | lib/string.c:239-284 | blanks, a sign, a prefix and digits, in small or capital letters, are used exactly, whatever follows them, and give the number that the digits stand for, in the base that the prefix and the caller lead to, with the sign, on 32 bits |
| RoundTrip.UnsignedRoundTrip | lib/printfmt.c:35-50 | in bases 2 to 16, any width: `strtol` returns the number and uses all of it if and only if it fits a `long` and no '-' padding gets in the way |
| RoundTrip.SignedRoundTrip | lib/printfmt.c:191-198 | the same for signed decimals that fit a `long`, with the exact condition on padding and sign |
| RoundTrip.PointerRoundTrip | lib/printfmt.c:215-221 | a pointer read in base 0 or 16 comes back with all its 32 bits, and all is used, if and only if only zeros pad it; from 0x80000000 on it comes back as a negative number |
| RoundTrip.PaddingOfDirectives | lib/printfmt.c:99-116 | directives can ask for no other padding characters than those considered |
| Boot.Readseg | boot/main.c:72-97 | writes whole sectors over the rounded span, and nothing else |
| Boot.Bootmain | boot/main.c:38-60 | loads the table's segments in order, each entry read from memory as it is by then, and yields the entry point found there; rejects a wrong magic number |
| Boot.TableIntact | boot/main.c:45-59 | with the table in the first page and no segment over the copy of that, the segments named on the disk are loaded in order, and the entry point is the one there |
| BootTheorems.OwnPlace | boot/main.c:79-83 | a segment alone is loaded from its own place if and only if address and offset agree modulo 512 |
| BootTheorems.ExactPlace | boot/main.c:53-56 | after all segments, a byte is the right one if and only if the last segment written over it has the same displacement |
| BootTheorems.AllSegmentsLoaded | boot/main.c:50-56 | every byte of every segment equals its byte of the image, despite the copying of too much |
| BootTheorems.KernelLoaded | boot/main.c:38-60 | the same for the segments that an image names in its own table, after the whole loop of `bootmain` |
| ElfImage.MagicIs | boot/main.c:46-48 | an image is accepted if and only if it starts with 0x7F and "ELF" |
| ElfImage.ImageRead | boot/main.c:50-60 | of an image that starts with an encoded header and holds an encoded table, entry point, place and length of the table are the encoded ones, and the segments are (p_pa, p_memsz, p_offset) of the entries, in order |
| ElfImage.EntryRead | inc/elf.h:24-33 | an entry encoded field by field, lowest byte first, is read as that segment |
| ElfImage.KernelInMemory | boot/main.c:38-60 | after `bootmain` every byte of every segment of such a kernel is, at its physical address, the disk's byte at 512 plus its offset, and control goes to the encoded entry point |
| BootTheorems.AscendingIsHarmless | boot/main.c:85-87 | ascending segments of which no two neighbours share a sector satisfy the condition for that |
| BootTheorems.IncreasingIsNotEnough | boot/main.c:85-87 | two ascending, aligned, disjoint segments of which the second leaves a wrong byte in the first |
| Monitor.Tokenize | kern/monitor.c:111-130 | finds the starts of all words if there are at most 15, changing only blanks; else refuses |
| Monitor.StringIsWord | kern/monitor.c:126-128 | afterwards the strings pointed to are the maximal runs without blanks |
| Monitor.Runcmd | kern/monitor.c:104-141 | runs the first command named by the first word, with all words; nothing, too many and unknown as the other outcomes |
| CommandLine.WordsTyped | kern/monitor.c:111-130 | the words of a line are the words typed, whatever gaps are between, before and after them |
| CommandLine.LineMeans | kern/monitor.c:104-141 | up to 15 words run the command of the first word's name with all of them; none do nothing; more, or a name that is no command's, are refused |
| LineMonitor.CallOnLine.HandleOutput | gradelib.py:532-538 | lines examined, bytes kept and callbacks made depend only on the whole output so far |
| LineMonitor.LinesAre | gradelib.py:533-534 | lines and rest, joined by newlines, are the output again, and no newline is left in any of them |
| LineMonitor.MatchingIs | gradelib.py:536-537 | callbacks are made for the lines that match, in order, and for no others |
| LineMonitor.SplitAnywhere | gradelib.py:533-535 | wherever a stream is cut, the lines are the same |
| LineMonitor.ChunksDoNotMatter | gradelib.py:532-538 | for every way of splitting a stream into chunks, the same lines in the same order and the same bytes kept |

## Left out

- StabBinsearch: takes and returns the two region ends as values; that they are the caller's variables, changed while the search runs, is not captured.
- Vprintfmt: where C leaves the outcome undefined there is no claim about what was printed before (`Mismatch`): arguments of the wrong kind or missing, the error code with no positive counterpart, and a width so low that counting it down passes -2147483648. Strings are given as their characters, so the address of a string cannot be printed as a pointer.
- Memmove: alignment is that of the offset within the array; the outcome does not depend on it.
- Readline: the branch for a negative character is not modelled, since `getchar` returns an unsigned byte.
- Bootmain: the header table, the segments and the sectors they take are required to lie within memory and disk.
- Readseg: sector numbers are not cut off at 28 bits.
- Runcmd: what the four commands do, the message texts, and `strcmp`, which is equality of strings here.
- Port input and output, waiting for devices, the hardware cursor, and the probing of the screen; ports are logs and input is a sequence.
- `mon_backtrace`, which walks the stack of the running machine.
- The other short string routines (`strlen`, `strcpy`, `strncpy`, `memcmp` and so on).
- `vcprintf`'s count, which the code never advances (kern/printf.c:13).
- Paging tables, segment descriptors, the assembly files, and the control of QEMU and GDB in `gradelib.py`.
