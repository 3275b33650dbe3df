# Monitor and timer0 of the ECEN 5803 flow-meter firmware, in Dafny

The firmware has two parts that share a few globals.

- **`timer0`** (module3/timer0.cpp) is the 100 us scheduler interrupt.
  - It advances the 8-bit `timer_state`, and `long_time_state` when `timer_state` wraps.
  - It counts down the two fast software timers on every tick.
  - An if / else-if chain on bits 0..5 of `timer_state` then picks one task group. That group either steps its pair of software timers, or, in the final else, decrements `display_timer` and raises `display_flag`.
  - Last, it runs the LED heartbeat and three free-running counters.
- **The serial console** (module3/Monitor.cpp) has four parts.
  - `chk_UART_msg` is a byte-at-a-time line editor over `msg_buf` and `msg_buf_idx`. It handles echo, backspace, the QUIET-mode filter, and dispatch on `'\r'` or on the third byte.
  - `UART_msg_process` dispatches the command in the buffer.
    - Mode words: DEB, NOR, QUI.
    - Single letters: V, P, and R, S, M, which work only in DEBUG.
    - R, S and M use `printRegs`, `print_mem` and `collectHex`.
  - `monitor` is the periodic renderer, gated by `display_flag` and `pause_flag`.
  - The numeric codec: `my_itoa`, `my_atoi`, `toPower`, `digitLookup`, `multipleLookup` and `is_hex`.

## How it is modelled

- **Transition functions.** Each routine is described twice. The first is a pure transition function on the values of the globals it touches: `Timer0.Tick` on a `TimerState`, and `Console.ProcessByte`, `Console.MsgProcess` and `Console.Monitor` on a `ConState`. All the properties are proved about these functions.
- **The `Board.Board` class.** This class holds the globals as fields and performs the routines in place.
  - The eight software timers are an `array`, and so is `msg_buf`.
  - Each method follows the source's branches and loops.
  - Each method is proved to leave the fields exactly as its transition function says (`TimerView() == Tick(old(TimerView()), T)`, `ConView() == Console.MsgProcess(old(ConView()), e)`). It is also proved to leave the other routine's fields alone. `display_timer` and `display_flag` are shared, and are the only fields both views see.
- **Output.** UART output is an append-only log of `Uart.Out` events. There is one event per `UART_put` of a byte and per one-character echo string that `collectHex` puts with `UART_direct_msg_put(echoBuff)` (`Char`; a NUL byte echoes the empty string and logs nothing), per other string put (`Text`), and per `UART_direct_hex_put` (`Hex`). Received bytes are a queue `rx`, and `UART_get` takes the head.
- **Hardware inputs.** What the console reads from the hardware is a parameter `Console.Env`: the 16 registers `printRegs` shows, `read_sp()`, the memory `print_mem` reads, `error_count`, `CODE_VERSION`, and `TX_BUF_SIZE`.
- **Constants from `shared.h`.** `LED_TOGGLE_TICKS` is a parameter of `Timer0`. `MSG_BUF_SIZE` (at least 3) and the initial `display_mode` are constructor parameters. `shared.h` is not part of this model.
- **Fixed-width arithmetic.** It is written out explicitly.
  - The 8-bit `timer_state`, `long_time_state` and `display_timer` wrap at 0x100. `display_timer` wraps from 0 to 0xFF.
  - The 16- and 32-bit counters wrap at their widths.
  - `my_atoi` accumulates in `int32_t`. Signed overflow there is undefined behaviour in C; the model chooses two's-complement wrap-around (`Bytes.Wrap32`), the usual outcome on the target. It is exact whenever the value fits (`Codec.AtoiExact`).
  - `collectHex` returns that value as a `uint32_t` (`Bytes.ToUnsigned32`).

### Where the code, not the description, is followed

- **QUIET filter.** In QUIET mode the incoming byte is dropped, and the buffer restarted, when the byte already stored in `msg_buf[0]` is not one of 0x02, D N V R S M P d n v r s m p and `msg_buf_idx != 0`. The filter never tests the incoming byte on an empty buffer. `Q`/`q` are not in the list either, so QUI cannot be typed in QUIET mode.
- **`print_mem` steps one byte at a time.** Each printed "word" is one byte, zero-extended to 0x000000XX (`Uart.HexWordOfByte`). Rows advance by 4 bytes. "Top 16 words of Stack" prints 16 bytes, and the memory command prints 32 bytes.
- **Single-letter commands do not check `msg_buf_idx`.** Any three-byte line starting with V is a version request.
- **An extra `Error!` after a mode word.** A mode word dispatches on its third byte and empties the buffer. The `'\r'` that follows then dispatches again, with the stale `msg_buf[0]` and an index of 0, which the mode-word checks reject. So typing `DEB` then Enter prints `Mode=DEBUG` followed by `Error!` (`Console.TypedDebThenEnter`).

## Model

| member | source | states |
|---|---|---|
| Board.Board.constructor | module3/timer0.cpp:94-121 | Every timer global starts at 0. The message buffer holds MSG_BUF_SIZE zero bytes, the index is 0, the pause flag is off, and nothing is queued or written. |
| Board.Board.Timer0 | module3/timer0.cpp:134-285 | One interrupt leaves the timer globals equal to `Tick` of their old values. Among the console globals, only `display_timer` and `display_flag` may change. |
| Board.Board.StateCalc | module3/timer0.cpp:141-145 | `timer_state` advances modulo 256. `long_time_state` advances exactly when `timer_state` wraps to 0. Nothing else changes. |
| Board.Board.FastGroup | module3/timer0.cpp:152-156 | `swtimer0` and `swtimer1` take a saturating decrement. The other timers and the message buffer are unchanged. |
| Board.Board.TaskGroups | module3/timer0.cpp:166-255 | The else-if chain applied in place, equal to `Groups` of the old state. |
| Board.Board.DecTimer | module3/timer0.cpp:180-183 | Exactly one software timer takes a saturating decrement, and every other element is untouched. |
| Board.Board.LedGroup | module3/timer0.cpp:270-278 | The heartbeat section in place, equal to `Heartbeat`. |
| Board.Board.Counters | module3/timer0.cpp:280-282 | The three counters in place, equal to `Count`. |
| Board.Board.ChkUartMsg | module3/Monitor.cpp:101-160 | Draining the receive queue byte by byte leaves the console equal to `Console.ChkUartMsg` of its old state. Among the timer globals, only `display_timer` may change. |
| Board.Board.Receive | module3/Monitor.cpp:106-157 | One received byte is handled through the source's branch chain, with the result equal to `Console.ProcessByte`. |
| Board.Board.MsgProcess | module3/Monitor.cpp:166-380 | The dispatcher in place, equal to `Console.MsgProcess`. It resets the index to 0. |
| Board.Board.UpperCase | module3/Monitor.cpp:170-268 | The upper-case switch returns `err` (1 = Error!, 2 = Not in DEBUG), and the state it leaves plus that report equals `Console.Dispatch`. |
| Board.Board.LowerCase | module3/Monitor.cpp:270-367 | The same for the lower-case switch. |
| Board.Board.SelectMode | module3/Monitor.cpp:174-180 | Sets the mode, writes the mode text, zeroes `display_timer`, and changes nothing else. |
| Board.Board.ShowVersion | module3/Monitor.cpp:207-213 | V: VERSION mode and the version lines, equal to `Console.VersionCommand`. |
| Board.Board.ShowRegs | module3/Monitor.cpp:215-225 | R in DEBUG: the register dump, equal to `Console.RegsCommand`. |
| Board.Board.ShowStack | module3/Monitor.cpp:227-238 | S in DEBUG: the banner and 16 bytes from `read_sp()`, equal to `Console.StackCommand`. |
| Board.Board.ShowMemory | module3/Monitor.cpp:240-258 | M in DEBUG: the prompt, the address read by `collectHex`, then the dump or "Invalid input." for address 0. Equal to `Console.MemCommand`. |
| Board.Board.CollectHex | module3/Monitor.cpp:1079-1100 | It returns the hex value of the bytes it stored, which are up to and including the first '\r' and at most TX_BUF_SIZE-1 of them. It consumes exactly those bytes and echoes them, non-NUL bytes only. |
| Board.Board.ReadEntry | module3/Monitor.cpp:1085-1096 | The do-while input loop. The buffer prefix it fills is `Console.Gather` of the queue, and the queue left is `Console.Unread`. |
| Board.Board.ReadByte | module3/Monitor.cpp:1090-1095 | Takes the head of the queue, stores it at the cursor, and echoes it unless it is NUL. |
| Board.Board.EntryValue | module3/Monitor.cpp:1097-1099 | Overwrites the last stored byte with NUL and changes nothing else of the buffer (nothing at all with no byte stored). The `my_atoi(…, 16)` result, as `uint32_t`, is `Console.HexValue` of the stored bytes. |
| Board.Board.Monitor | module3/Monitor.cpp:400-488 | One renderer pass in place, equal to `Console.Monitor`. Among the timer globals, only `display_flag` may change. |
| Board.Board.DebugDisplay | module3/Monitor.cpp:449-478 | The DEBUG report is appended and `display_flag` is cleared. |
| Board.DebugLines | module3/Monitor.cpp:451-474 | The DEBUG output: the status lines, the register dump, and the error count in decimal. |
| Board.ErrorCountText | module3/Monitor.cpp:471-474 | The text written for `error_count` is exactly `Format(error_count, 10)`, read back from the `my_itoa` buffer. |
| Board.AddressDump | module3/Monitor.cpp:250-253 | Address 0 gives "Invalid input.", and any other address gives `print_mem(addr, 32)`. |
| Timer0.GroupResidues | module3/timer0.cpp:166-255 | The chain's groups as residue classes: 200 us iff ts%2==1, 400 us iff ts%4==2, 800 us iff ts%8==4, 1.6 ms iff ts%16==8, 3.2 ms iff ts%32==16, 6.4 ms A iff ts%64==32, the else iff ts%64==0. |
| Timer0.TickSchedule | module3/timer0.cpp:141-145 | After one tick, `timer_state` is ts+1, or 0 after 0xFF. `long_time_state` advances by one (modulo 256) exactly then. |
| Timer0.TicksSchedule | module3/timer0.cpp:141-145 | After n ticks, `timer_state` is (ts+n) mod 256 and `long_time_state` has advanced by (ts+n) div 256, modulo 256. |
| Timer0.SchedulerPeriod | module3/timer0.cpp:141-145 | 256·k ticks return `timer_state` to its start and add exactly k (mod 256) to `long_time_state`. |
| Timer0.TickSwTimer | module3/timer0.cpp:152-240 | Band exclusivity. Timer i takes a saturating decrement exactly on its eligible ticks and is unchanged on all others. Timers 0 and 1 are eligible always, 2 and 3 when ts%4==2, 4 and 5 when ts%32==16, 6 and 7 when ts%64==32. |
| Timer0.TickSwTimerBounded | module3/timer0.cpp:152-240 | No software timer increases, none moves by more than 1 per tick, and an expired (zero) timer stays at 0. |
| Timer0.TicksSwTimer | module3/timer0.cpp:152-240 | After n ticks, timer i equals its start minus the number of its eligible ticks among them, floored at 0. |
| Timer0.FastTimers | module3/timer0.cpp:152-156 | After n ticks, `swtimer0` and `swtimer1` equal max(0, start − n). |
| Timer0.TickDisplay | module3/timer0.cpp:245-255 | `display_timer` wrap-decrements exactly when the new ts%64==0. `display_flag` becomes 1 exactly when it was 1 or that decrement landed on 1. timer0 never clears it. |
| Timer0.DisplayTimerWraps | module3/timer0.cpp:250 | The decrement has no zero check, so 0 wraps to 0xFF. |
| Timer0.TickLed | module3/timer0.cpp:270-278 | Above LED_TOGGLE_TICKS, `led_timer` resets to 0 and `led_flag` becomes 1. Otherwise `led_timer` counts up by one and `led_flag` is unchanged. `led_timer` never exceeds LED_TOGGLE_TICKS+1. Stated for LED_TOGGLE_TICKS < 0xFFFF, so that the `uint16_t` `led_timer` cannot wrap. |
| Timer0.TickCounters | module3/timer0.cpp:280-282 | Each counter increases by 1 per tick, wrapping at 2^32 or 2^16. |
| Timer0.TicksSystemTimer | module3/timer0.cpp:280 | After n ticks, `System_Timer_count` is start+n mod 2^32. |
| Timer0.TicksTimer0Count | module3/timer0.cpp:281 | After n ticks, `timer0_count` is start+n mod 2^16. |
| Timer0.TicksIsrCounter | module3/timer0.cpp:282 | After n ticks, `SwTimerIsrCounter` is start+n mod 2^16. |
| Console.Dispatch | module3/Monitor.cpp:170-368 | The switch keeps the buffer, the index and `display_flag`. Received bytes are never added (the queue does not grow), and output is only appended. |
| Console.MsgProcess | module3/Monitor.cpp:166-380 | After dispatch the index is 0. The buffer and `display_flag` are kept, the received queue does not grow, and output is only appended. |
| Console.ProcessByte | module3/Monitor.cpp:106-157 | One byte keeps the state well formed and `display_flag` unchanged, does not grow the received queue, and only appends output. |
| Console.ChkUartMsg | module3/Monitor.cpp:101-160 | The loop ends with the receive queue empty, with `display_flag` unchanged, and with output only appended. |
| Console.CommandLetters | module3/Monitor.cpp:170-368 | The command chosen from `msg_buf[0]` is exactly its upper- or lower-case letter, in both directions. |
| Console.IndexStaysSmall | module3/Monitor.cpp:132-157 | With the index at most 2, no byte takes the "Too Long!" branch, and the index stays at most 2. |
| Console.ChkIndexStaysSmall | module3/Monitor.cpp:101-160 | Over any input, the index stays at most 2, so the overflow branch is dead for MSG_BUF_SIZE ≥ 3. |
| Console.EraseByte | module3/Monitor.cpp:115-131 | Backspace is echoed. When the index is non-zero it writes " \b" and decrements the index. When the index is 0 nothing else happens. Nothing else changes. |
| Console.EchoFirst | module3/Monitor.cpp:115-118 | Every byte other than '\r' and 0x02 is echoed first, backspace included. |
| Console.CtrlBSilent | module3/Monitor.cpp:115-157 | A 0x02 that does not complete a line writes nothing. |
| Console.EnterDispatches | module3/Monitor.cpp:108-112 | '\r' writes "\r\n", always dispatches, and leaves the index at 0. |
| Console.QuietFilter | module3/Monitor.cpp:137-148 | In QUIET mode, with a stored first byte outside the kept set, the incoming byte is echoed and dropped, and the index resets to 0. The mode is unchanged. |
| Console.QuietStoresFirstByte | module3/Monitor.cpp:137-152 | In QUIET mode, on an empty buffer, the incoming byte is stored whatever it is. |
| Console.StoreByte | module3/Monitor.cpp:149-157 | A stored byte goes to `msg_buf[idx]` and the index advances. At the third byte the message is dispatched. |
| Console.ModeWords | module3/Monitor.cpp:174-205 | DEB, NOR or QUI (either case) with index 3 sets that mode, writes its "\r\nMode=…\n" text, and zeroes `display_timer`. The index becomes 0, and nothing else changes. |
| Console.MalformedModeWord | module3/Monitor.cpp:174-205 | A D, N or Q line that is not exactly the three-letter word of the same case gives "Error!" and changes nothing but the index. |
| Console.UnknownCommand | module3/Monitor.cpp:265-267 | Any other first byte gives "\n\rError!", resets the index, and changes nothing else. |
| Console.SingleLetters | module3/Monitor.cpp:207-262 | V sets VERSION mode and writes the version lines, whatever the index. P toggles only `pause_flag`. |
| Console.DebugGate | module3/Monitor.cpp:215-258 | R, S and M outside DEBUG give "\n\rNot in DEBUG Mode!" and change no state but the index. |
| Console.DebugDumps | module3/Monitor.cpp:215-238 | In DEBUG, R appends the register dump and S appends the banner and `print_mem(sp, 16)`, which is four rows. |
| Console.CaseInsensitive | module3/Monitor.cpp:170-368 | A line in upper case and the same line in lower case have the same effect. |
| Console.WhoChangesWhat | module3/Monitor.cpp:166-380 | Only D, N, Q and V lines can change the mode, and only P lines can change `pause_flag`. |
| Console.GatherSplit | module3/Monitor.cpp:1085-1096 | collectHex's stored bytes followed by the unread bytes are the whole queue. |
| Console.GatherLine | module3/Monitor.cpp:1085-1096 | A short line ending in '\r' is stored through the '\r', and the rest of the queue is untouched. |
| Console.GatherFull | module3/Monitor.cpp:1096 | Without a '\r', collection stops after exactly TX_BUF_SIZE-1 bytes. |
| Console.ReadAddress | module3/Monitor.cpp:1079-1100 | Typing `my_itoa`'s hex text of v and '\r' makes collectHex return v as `uint32_t`, and consumes exactly that line. |
| Console.MemCommandDumps | module3/Monitor.cpp:240-258 | In DEBUG, M followed by a typed hex address writes the prompt, the echo, and `print_mem(addr, 32)`, or "Invalid input." for 0. |
| Console.UnreadConsumed | module3/Monitor.cpp:1085-1096 | The bytes collectHex leaves unread are a suffix of the received queue: it reads only from the front. |
| Console.MemCommandConsumed | module3/Monitor.cpp:240-258 | The memory command leaves a suffix of the received queue. |
| Console.MemDispatch | module3/Monitor.cpp:240-258 | In DEBUG, an M line is the memory command, followed by the index reset. |
| Console.MonitorWrites | module3/Monitor.cpp:407-487 | monitor writes something iff the mode is QUIET, or it is NORMAL or DEBUG with the flag up and not paused. It only appends. |
| Console.MonitorFlag | module3/Monitor.cpp:407-487 | QUIET and VERSION clear `display_flag` unconditionally. NORMAL and DEBUG clear it only when it is 1 and not paused. Nothing else but the output changes. |
| Console.RenderOnce | module3/Monitor.cpp:422-480 | Outside QUIET a second pass adds nothing, so one raise of the flag gives at most one render. |
| Console.TypedDeb | module3/Monitor.cpp:101-183 | Typing "DEB" from an idle line echoes D, E and B, switches to DEBUG, and leaves the index at 0. |
| Console.TypedDebThenEnter | module3/Monitor.cpp:101-183 | "DEB\r" switches to DEBUG and then also prints "Error!" for the stale buffer. |
| Console.ChkStore | module3/Monitor.cpp:149-157 | One stored byte in the loop is followed by dispatch at the third, then the rest of the loop. |
| Console.ChkEnter | module3/Monitor.cpp:108-112 | A '\r' in the loop writes "\r\n" and dispatches before the rest of the loop. |
| Console.TypedRegsOutsideDebug | module3/Monitor.cpp:215-219 | "R\r" in NORMAL echoes R and prints "Not in DEBUG Mode!", with no state change. |
| MemDump.RowsCount | module3/Monitor.cpp:1050-1076 | `print_mem(start, n)` emits ⌈n/4⌉ rows. |
| MemDump.RowsLayout | module3/Monitor.cpp:1050-1076 | Row k is labelled start+4k (mod 2^32) and holds min(4, n−4k) entries. |
| MemDump.RowsByte | module3/Monitor.cpp:1063-1072 | Entry i of row k is the byte at start+4k+i. |
| MemDump.PrintMem | module3/Monitor.cpp:1046-1077 | The nested loops write exactly the row-by-row dump `Dump(mem, start, n)`. |
| MemDump.PrintRow | module3/Monitor.cpp:1053-1075 | One outer pass writes the label and first row, taking min(4, left) bytes and advancing the address by that many. |
| MemDump.PrintEntries | module3/Monitor.cpp:1063-1072 | The inner loop writes min(4, left) entries, one per byte from the current address on. |
| MemDump.PrintRegsShape | module3/Monitor.cpp:490-607 | The register dump is 82 events: the banner, five per register, and the closing line break. |
| MemDump.PrintRegsLayout | module3/Monitor.cpp:495-605 | Register k's label is at 1+5k, followed by its four bytes, most significant first. |
| Uart.Split32 | module3/Monitor.cpp:497-500 | The four bytes `v>>24, (v>>16)&0xFF, (v>>8)&0xFF, v&0xFF` recombine to v. |
| Uart.HexWordInjective | module3/Monitor.cpp:1056-1059 | Different 32-bit values print differently. |
| Uart.HexWordOfByte | module3/Monitor.cpp:1066-1069 | A byte printed through the word routine is three zero bytes and itself. |
| Codec.DigitLookup | module3/Monitor.cpp:879-954 | 0..9 map to '0'..'9' and 10..15 to 'A'..'F'; any other value gives 0. |
| Codec.MultipleLookup | module3/Monitor.cpp:963-1044 | '0'..'9', 'A'..'F' and 'a'..'f' map to their values, and any other byte to −1. |
| Codec.LookupRoundTrip | module3/Monitor.cpp:879-1044 | `multipleLookup(digitLookup(d)) == d` for 0 ≤ d ≤ 15, for both letter cases. |
| Codec.LookupInverse | module3/Monitor.cpp:879-1044 | Every accepted digit maps back to itself, or to its upper-case form. |
| Codec.IsHex | module3/Monitor.cpp:390-395 | `is_hex` as written accepts exactly the hex digits and the control bytes 0x10..0x19. |
| Codec.IsHexAcceptsControlByte | module3/Monitor.cpp:390-395 | 0x10 is accepted although it is not a digit. |
| Codec.IsHexDigit | module3/Monitor.cpp:390-395 | The corrected test accepts exactly the bytes `multipleLookup` accepts. |
| Codec.ToPower | module3/Monitor.cpp:860-871 | The accumulator loop returns base^exponent. |
| Codec.NumDigitsBounds | module3/Monitor.cpp:746-752 | The digit count m satisfies b^(m−1) ≤ n < b^m, so it is minimal. |
| Codec.Magnitude32 | module3/Monitor.cpp:746-752 | The probing loop stops at exactly the digit count of the value. |
| Codec.PeelDigits | module3/Monitor.cpp:757-769 | The de-accumulation loop writes the digits most significant first, padded to the probed count. |
| Codec.Convert | module3/Monitor.cpp:724-771 | For a base in 2..16 the conversion text is `Format(data, base)`. For any other base it is empty. |
| Codec.FormatShape | module3/Monitor.cpp:724-771 | The text is an optional '-' and then 1..31 valid digits with no leading zero, exactly "0" for zero. |
| Codec.MyItoa | module3/Monitor.cpp:717-797 | With ptr NULL or a bad base it returns 0 and writes nothing. Otherwise it writes `Format` and a NUL, returns that length counting the NUL, and leaves the rest of the buffer alone. |
| Codec.CLen | module3/Monitor.cpp:816-819 | The C string's length is the index of the first NUL. |
| Codec.CStrPrefix | module3/Monitor.cpp:1097 | A NUL at k ends the string at or before k. |
| Codec.CountDigits | module3/Monitor.cpp:815-819 | The counting loop returns the distance to the NUL. |
| Codec.Accumulate | module3/Monitor.cpp:825-843 | The accumulation loop returns the digits' weighted value, wrapped to 32 bits, or 0 on the first digit invalid for the base. |
| Codec.MyAtoi | module3/Monitor.cpp:799-850 | NULL gives 0. Otherwise the result is `Atoi` of the C string: sign, digits and error path. |
| Codec.AtoiRejects | module3/Monitor.cpp:825-838 | A digit that is invalid for the base (lookup < 0 or ≥ base), even after a '-', gives 0. So do the empty string and a lone "-". |
| Codec.AtoiExact | module3/Monitor.cpp:804-847 | Valid digits whose value fits give exactly ± that value. |
| Codec.RoundTrip | module3/Monitor.cpp:717-850 | `my_atoi(my_itoa(v, b), b) == v` for 2 ≤ b ≤ 16 and v ≠ INT32_MIN. |
| Bytes.Wrap32 | module3/Monitor.cpp:842 | The 32-bit accumulation is congruent to the exact value mod 2^32, and equal to it when it fits. |
| Bytes.ToUnsigned32 | module3/Monitor.cpp:1099 | The `int32_t` to `uint32_t` conversion keeps the residue, and 0 exactly when the value is 0. |

## Left out

- UART hardware, `serial()`, and the `UART_*` output routines are outside the model. Output is an event log and input is a byte queue.
- Board.Board.CollectHex: `collectHex` busy-waits on `UART_input()` for the next byte. The model has no waiting, so an entry also ends when the received queue runs dry.
- Register reads (`read_gpr_0..12`, `read_sp`, `read_lr`, `read_pc`) are inline ARM assembly. Their values are the `Env` snapshot.
- `BugMe` (the debug pin toggled at entry and exit of timer0) is a hardware output and is left out.
- The empty "Long Time Group" test at module3/timer0.cpp:261-264 has no effect and is not modelled.
- Interrupt-versus-foreground concurrency is left out. `timer0` and the console routines are separate atomic steps on the shared `Board.Board` object, not interleaved threads.
- `set_display_mode` (the fixed prompt text) is not part of this model.
- The `default: "Mode Error"` branch of `monitor` is unreachable, because `Mode` has exactly the four modes.
- Board.Board.Receive: `msg_buf_idx` is an 8-bit `UCHAR` in the source and a `nat` here. The index is proved to stay at most 2 (`Console.ChkIndexStaysSmall`), so the width never matters.
- Codec.MyItoa: requires `data != INT32_MIN`, because `data *= -1` overflows there (undefined behaviour in C). It also requires the caller's buffer to hold the text and its NUL, as the source assumes without checking.
- Codec.MyAtoi: requires fewer than 256 digits, because the source counts them in a `uint8_t`.
- Console.WfEnv: `TX_BUF_SIZE` is assumed to lie between 34 and 256. That holds `my_itoa`'s longest text, and keeps collectHex's digit count inside `my_atoi`'s `uint8_t` counter. `error_count` is assumed not to be `INT32_MIN`, because the status report passes it to `my_itoa` (module3/Monitor.cpp:472), which overflows there (see the Codec.MyItoa line).
- Codec.ToPower: the overflow of the `int64_t` accumulator (base^exponent of 2^63 or more, which collectHex reaches in base 16 with 17 or more hex digits) is not modelled; the result is the exact power. `my_atoi` casts it to `int32_t`, so only its value mod 2^32 is used, and the exact power agrees with the wrapped one mod 2^32.
- Codec.Accumulate: the signed overflow of `iAccum += currMultiple * currPower` and of `iAccum * -1` is undefined behaviour in C, and the `(int32_t)` cast of `toPower`'s result is implementation-defined; the model takes all three as two's-complement wrap-around mod 2^32.
- Uninitialised stack buffers (`tempBuff` in `monitor` and `collectHex`) start as arbitrary bytes in the model. Only the bytes written are relied on.
- `led_flag` is set by timer0 and consumed elsewhere. Only its setting is modelled.

## Findings

| source | as written | input that shows it | evidently intended | confidence | as-written member | corrected member |
|---|---|---|---|---|---|---|
| module3/Monitor.cpp:390-395 | `is_hex` ORs 0x20 into the byte before the digit test, so the bytes 0x10..0x19 become '0'..'9' and are accepted | `is_hex(0x10)` returns 1 | accept only '0'..'9', 'a'..'f' and 'A'..'F' | not executed | Codec.IsHexAcceptsControlByte | Codec.IsHexDigit |
