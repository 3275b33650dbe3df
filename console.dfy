/**
 * The serial console of module3/Monitor.cpp as transition functions on the
 * values of the globals it updates: the line editor chk_UART_msg, the
 * command dispatcher UART_msg_process with collectHex, and the periodic
 * renderer monitor.  The imperative versions on the shared board record
 * are in module Board and are proved equal to these.
 */
module Console {
  import opened Bytes
  import opened Uart
  import opened Codec
  import opened MemDump

  datatype Mode = Normal | Quiet | Debug | Version

  /** The console's globals, with the pending received bytes and the output log. */
  datatype ConState = ConState(
    buf: seq<byte>,        // msg_buf, MSG_BUF_SIZE bytes
    idx: nat,              // msg_buf_idx
    mode: Mode,            // display_mode
    pause: bool,           // pause_flag
    displayTimer: byte,    // display_timer, shared with timer0
    displayFlag: byte,     // display_flag, shared with timer0
    rx: seq<byte>,         // bytes received and not yet read by UART_get
    out: seq<Out>)         // everything written to the UART so far

  predicate Wf(c: ConState)
  {
    |c.buf| >= 3 && c.idx <= |c.buf|
  }

  /**
   * What the console reads from outside this model: the register snapshot
   * printRegs takes (r0..r12, sp, lr, pc), read_sp() for the stack dump,
   * the memory print_mem reads, error_count, CODE_VERSION and TX_BUF_SIZE.
   */
  datatype Env = Env(regs: seq<uint32>, sp: uint32, mem: Memory, errorCount: int32, version: string, txBufSize: nat)

  /**
   * TX_BUF_SIZE holds my_itoa's longest text and its NUL, and keeps the
   * digit count of collectHex's buffer below my_atoi's uint8_t limit.
   */
  predicate WfEnv(e: Env)
  {
    |e.regs| == 16 && e.errorCount != INT32_MIN && 34 <= e.txBufSize <= 256
  }

  const CR: byte := 0x0D
  const BS: byte := 0x08
  const CtrlB: byte := 0x02

  const ModeDebugText := "\r\nMode=DEBUG\n"
  const ModeNormalText := "\r\nMode=NORMAL\n"
  const ModeQuietText := "\r\nMode=QUIET\n"
  const ErrorText := "\n\rError!"
  const NotDebugText := "\n\rNot in DEBUG Mode!"
  const TooLongText := "\r\nToo Long!"
  const StackText := "\r\n*** Top 16 words of Stack ***\r\n"
  const PromptText := "\r\nInput memory location in hex: "
  const InvalidText := "\r\nInvalid input.\r\n"
  const EraseText: string := [' ', 8 as char]

  /** The byte counts the S and M commands pass to print_mem. */
  const StackDumpBytes: nat := 16
  const MemDumpBytes: nat := 32

  function Put(c: ConState, o: seq<Out>): ConState
  {
    c.(out := c.out + o)
  }

  /** The bytes of a C string as text. */
  function Chars(bs: seq<byte>): string
  {
    seq(|bs|, i requires 0 <= i < |bs| => bs[i] as char)
  }

  // ---------------------------------------------------------------------
  // UART_msg_process
  // ---------------------------------------------------------------------

  /** The letter u in the case of the branch taken: as written for msg_buf[0] <= 0x60, else lower case. */
  function Cased(u: char, upper: bool): int
  {
    if upper then u as int else u as int + 0x20
  }

  /** The second and third letters of a mode word, in the branch's case, with exactly three bytes typed. */
  predicate Word(c: ConState, second: char, third: char, upper: bool)
    requires Wf(c)
  {
    c.buf[1] == Cased(second, upper) && c.buf[2] == Cased(third, upper) && c.idx == 3
  }

  function SetMode(c: ConState, ok: bool, m: Mode, text: string): ConState
  {
    if ok then c.(mode := m, out := c.out + [Text(text)], displayTimer := 0)
    else Put(c, [Text(ErrorText)])
  }

  /** The cases of UART_msg_process's two switches. */
  datatype Command = DebWord | NorWord | QuiWord | ShowVersion | ShowRegs | ShowStack | ShowMem | TogglePause | NoCommand

  /**
   * The case msg_buf[0] selects: the upper-case switch for bytes up to
   * 0x60, the lower-case one above.
   */
  function CommandOf(chr: byte): Command
  {
    var upper := chr <= 0x60;
    if chr == Cased('D', upper) then DebWord
    else if chr == Cased('N', upper) then NorWord
    else if chr == Cased('Q', upper) then QuiWord
    else if chr == Cased('V', upper) then ShowVersion
    else if chr == Cased('R', upper) then ShowRegs
    else if chr == Cased('S', upper) then ShowStack
    else if chr == Cased('M', upper) then ShowMem
    else if chr == Cased('P', upper) then TogglePause
    else NoCommand
  }

  /** Each command is selected by its letter in either case, and by nothing else. */
  lemma CommandLetters(b: byte)
    ensures CommandOf(b) == DebWord <==> b == 'D' as int || b == 'd' as int
    ensures CommandOf(b) == NorWord <==> b == 'N' as int || b == 'n' as int
    ensures CommandOf(b) == QuiWord <==> b == 'Q' as int || b == 'q' as int
    ensures CommandOf(b) == ShowVersion <==> b == 'V' as int || b == 'v' as int
    ensures CommandOf(b) == ShowRegs <==> b == 'R' as int || b == 'r' as int
    ensures CommandOf(b) == ShowStack <==> b == 'S' as int || b == 's' as int
    ensures CommandOf(b) == ShowMem <==> b == 'M' as int || b == 'm' as int
    ensures CommandOf(b) == TogglePause <==> b == 'P' as int || b == 'p' as int
  {
  }

  /** The switch of UART_msg_process, with its error report, before msg_buf_idx is reset. */
  function Dispatch(c: ConState, e: Env): (r: ConState)
    requires Wf(c) && WfEnv(e)
    ensures Wf(r) && r.buf == c.buf && r.idx == c.idx && r.displayFlag == c.displayFlag
    ensures |r.rx| <= |c.rx| && c.out <= r.out
  {
    var upper := c.buf[0] <= 0x60;
    match CommandOf(c.buf[0])
    case DebWord => SetMode(c, Word(c, 'E', 'B', upper), Debug, ModeDebugText)
    case NorWord => SetMode(c, Word(c, 'O', 'R', upper), Normal, ModeNormalText)
    case QuiWord => SetMode(c, Word(c, 'U', 'I', upper), Quiet, ModeQuietText)
    case ShowVersion => VersionCommand(c, e)
    case ShowRegs => if c.mode != Debug then Put(c, [Text(NotDebugText)]) else RegsCommand(c, e)
    case ShowStack => if c.mode != Debug then Put(c, [Text(NotDebugText)]) else StackCommand(c, e)
    case ShowMem => if c.mode != Debug then Put(c, [Text(NotDebugText)]) else MemCommand(c, e)
    case TogglePause => c.(pause := !c.pause)
    case NoCommand => Put(c, [Text(ErrorText)])
  }

  /** V: select VERSION mode and print the version banner. */
  function VersionCommand(c: ConState, e: Env): (r: ConState)
    ensures r.buf == c.buf && r.idx == c.idx && r.rx == c.rx && c.out <= r.out
  {
    c.(mode := Version, out := c.out + [Text("\r\n"), Text(e.version), Text("\r\nSelect  ")], displayTimer := 0)
  }

  /** R in DEBUG mode: list the registers. */
  function RegsCommand(c: ConState, e: Env): (r: ConState)
    requires |e.regs| == 16
    ensures r.buf == c.buf && r.idx == c.idx && r.rx == c.rx && c.out <= r.out
  {
    c.(out := c.out + PrintRegs(e.regs), displayTimer := 0)
  }

  /** S in DEBUG mode: dump the bytes from sp. */
  function StackCommand(c: ConState, e: Env): (r: ConState)
    ensures r.buf == c.buf && r.idx == c.idx && r.rx == c.rx && c.out <= r.out
  {
    c.(out := c.out + [Text(StackText)] + Dump(e.mem, e.sp, StackDumpBytes), displayTimer := 0)
  }

  /** UART_msg_process: dispatch on msg_buf[0], then empty the buffer. */
  function MsgProcess(c: ConState, e: Env): (r: ConState)
    requires Wf(c) && WfEnv(e)
    ensures Wf(r) && r.idx == 0 && r.buf == c.buf && r.displayFlag == c.displayFlag
    ensures |r.rx| <= |c.rx| && c.out <= r.out
  {
    Dispatch(c, e).(idx := 0)
  }

  /** The 'M' command in DEBUG mode: prompt, read an address with collectHex, dump 32 bytes from it. */
  function MemCommand(c: ConState, e: Env): (r: ConState)
    requires WfEnv(e)
    ensures r.buf == c.buf && r.idx == c.idx && |r.rx| <= |c.rx|
  {
    c.(rx := Unread(c.rx, e.txBufSize - 1), displayTimer := 0,
       out := c.out + MemOutput(e.mem, Gather(c.rx, e.txBufSize - 1)))
  }

  /** The prompt, the echo of the entry, and the reply to the address it holds. */
  function MemOutput(mem: Memory, stored: seq<byte>): seq<Out>
  {
    [Text(PromptText)] + Echo(stored) + AddressReply(mem, HexValue(stored))
  }

  /** print_mem's dump for a non-zero address; the refusal for address 0. */
  function AddressReply(mem: Memory, addr: uint32): seq<Out>
  {
    if addr == 0 then [Text(InvalidText)] else Dump(mem, addr, MemDumpBytes)
  }

  // ---------------------------------------------------------------------
  // collectHex
  // ---------------------------------------------------------------------

  /**
   * The bytes collectHex stores: one at a time, up to and including a '\r',
   * and no more than room of them.  Its wait for a byte is not modelled:
   * when rx runs out the entry ends there.
   */
  function Gather(rx: seq<byte>, room: nat): (stored: seq<byte>)
    ensures |stored| <= |rx| && |stored| <= room
  {
    if rx == [] || room == 0 then []
    else if rx[0] == CR || room == 1 then [rx[0]]
    else [rx[0]] + Gather(rx[1..], room - 1)
  }

  /** The received bytes collectHex leaves unread. */
  function Unread(rx: seq<byte>, room: nat): (rest: seq<byte>)
    ensures |rest| <= |rx|
  {
    if rx == [] || room == 0 then rx
    else if rx[0] == CR || room == 1 then rx[1..]
    else Unread(rx[1..], room - 1)
  }

  /** The echo of each stored byte as a one-character C string: nothing for a NUL. */
  function Echo(bs: seq<byte>): seq<Out>
  {
    if bs == [] then [] else (if bs[0] != 0 then [Char(bs[0])] else []) + Echo(bs[1..])
  }

  /** The last stored byte is overwritten with NUL and the buffer read by my_atoi in base 16. */
  function HexValue(stored: seq<byte>): uint32
  {
    if stored == [] then 0
    else
      var text := stored[..|stored| - 1] + [0];
      ToUnsigned32(Atoi(CStr(text), 16))
  }

  // ---------------------------------------------------------------------
  // chk_UART_msg
  // ---------------------------------------------------------------------

  /** The branch chk_UART_msg takes for a received byte. */
  datatype Edit = Enter | Erase | Overflow | QuietDrop | Store

  /** The first bytes the QUIET filter lets a message start with: ^B and D N V R S M P in either case. */
  predicate QuietKeeps(b: byte)
  {
    b in {CtrlB as int, 'D' as int, 'N' as int, 'V' as int, 'R' as int, 'S' as int, 'M' as int, 'P' as int,
          'd' as int, 'n' as int, 'v' as int, 'r' as int, 's' as int, 'm' as int, 'p' as int}
  }

  function EditOf(c: ConState, j: byte): Edit
    requires Wf(c)
  {
    if j == CR then Enter
    else if j == BS then Erase
    else if c.idx >= |c.buf| then Overflow
    else if c.mode == Quiet && !QuietKeeps(c.buf[0]) && c.idx != 0 then QuietDrop
    else Store
  }

  /** The echo of every received byte other than '\r' and ^B. */
  function EchoByte(c: ConState, j: byte): ConState
  {
    if j != CtrlB then Put(c, [Char(j)]) else c
  }

  /** One pass of chk_UART_msg's loop body for the received byte j. */
  function ProcessByte(c: ConState, e: Env, j: byte): (r: ConState)
    requires Wf(c) && WfEnv(e)
    ensures Wf(r) && r.displayFlag == c.displayFlag && |r.rx| <= |c.rx| && c.out <= r.out
  {
    match EditOf(c, j)
    case Enter => MsgProcess(Put(c, [Text("\r\n")]), e)
    case Erase =>
      var c1 := EchoByte(c, j);
      if c.idx != 0 then Put(c1, [Text(EraseText)]).(idx := c.idx - 1) else c1
    case Overflow => Put(EchoByte(c, j), [Text(TooLongText)]).(idx := 0)
    case QuietDrop => EchoByte(c, j).(idx := 0)
    case Store =>
      var c1 := EchoByte(c, j).(buf := c.buf[c.idx := j], idx := c.idx + 1);
      if c1.idx > 2 then MsgProcess(c1, e) else c1
  }

  /** chk_UART_msg: handle received bytes until none is pending. */
  function ChkUartMsg(c: ConState, e: Env): (r: ConState)
    requires Wf(c) && WfEnv(e)
    ensures Wf(r) && r.rx == [] && r.displayFlag == c.displayFlag && c.out <= r.out
    decreases |c.rx|
  {
    if c.rx == [] then c
    else ChkUartMsg(ProcessByte(c.(rx := c.rx[1..]), e, c.rx[0]), e)
  }

  // ---------------------------------------------------------------------
  // monitor
  // ---------------------------------------------------------------------

  function Status(head: string): seq<Out>
  {
    [Text(head), Text(" Flow: "), Text(" Temp: "), Text(" Freq: "), Text("\r\n")]
  }

  /** The DEBUG report: status lines, registers, and error_count in decimal as my_itoa writes it. */
  function DebugReport(e: Env): seq<Out>
    requires WfEnv(e)
  {
    Status("\r\nDEBUG ") + PrintRegs(e.regs)
      + [Text("\r\nUART Transmission Error Count:\t"), Text(Chars(Format(e.errorCount, 10))), Text("\r\n")]
  }

  /** monitor: one pass of the renderer. */
  function Monitor(c: ConState, e: Env): ConState
    requires WfEnv(e)
  {
    match c.mode
    case Quiet => c.(out := c.out + [Text("\r\n ")], displayFlag := 0)
    case Version => c.(displayFlag := 0)
    case Normal =>
      if c.displayFlag == 1 && !c.pause then c.(out := c.out + Status("\r\nNORMAL "), displayFlag := 0) else c
    case Debug =>
      if c.displayFlag == 1 && !c.pause then c.(out := c.out + DebugReport(e), displayFlag := 0) else c
  }

  // ---------------------------------------------------------------------
  // Properties of the line editor
  // ---------------------------------------------------------------------

  /**
   * msg_buf_idx stays at most 2 between received bytes: the third stored
   * byte dispatches, and dispatching empties the buffer.  So with
   * MSG_BUF_SIZE >= 3 the "Too Long!" branch is never taken.
   */
  lemma IndexStaysSmall(c: ConState, e: Env, j: byte)
    requires Wf(c) && WfEnv(e) && c.idx <= 2
    ensures EditOf(c, j) != Overflow
    ensures ProcessByte(c, e, j).idx <= 2
  {
  }

  lemma {:induction false} ChkIndexStaysSmall(c: ConState, e: Env)
    requires Wf(c) && WfEnv(e) && c.idx <= 2
    ensures ChkUartMsg(c, e).idx <= 2
    decreases |c.rx|
  {
    if c.rx != [] {
      var c1 := c.(rx := c.rx[1..]);
      IndexStaysSmall(c1, e, c.rx[0]);
      ChkIndexStaysSmall(ProcessByte(c1, e, c.rx[0]), e);
    }
  }

  /** Backspace is echoed, and erases (echoing " \b") only when the buffer is not empty. */
  lemma EraseByte(c: ConState, e: Env)
    requires Wf(c) && WfEnv(e)
    ensures var r := ProcessByte(c, e, BS);
      && r.idx == (if c.idx != 0 then c.idx - 1 else 0)
      && r.out == c.out + [Char(BS)] + (if c.idx != 0 then [Text(EraseText)] else [])
      && r.buf == c.buf && r.mode == c.mode && r.pause == c.pause && r.rx == c.rx
  {
  }

  /** Every byte but '\r' and ^B is echoed before anything else is written for it. */
  lemma EchoFirst(c: ConState, e: Env, j: byte)
    requires Wf(c) && WfEnv(e) && j != CR && j != CtrlB
    ensures |ProcessByte(c, e, j).out| > |c.out|
    ensures ProcessByte(c, e, j).out[..|c.out| + 1] == c.out + [Char(j)]
  {
    var r := ProcessByte(c, e, j);
    var c1 := EchoByte(c, j);
    assert c1.out <= r.out;
    assert r.out[..|c.out| + 1] == c1.out[..|c.out| + 1];
  }

  /** ^B is never echoed: a ^B that does not complete a message writes nothing. */
  lemma CtrlBSilent(c: ConState, e: Env)
    requires Wf(c) && WfEnv(e) && c.idx < 2
    ensures ProcessByte(c, e, CtrlB).out == c.out
  {
  }

  /** '\r' always dispatches, whatever the buffer holds, after writing "\r\n". */
  lemma EnterDispatches(c: ConState, e: Env)
    requires Wf(c) && WfEnv(e)
    ensures ProcessByte(c, e, CR) == MsgProcess(c.(out := c.out + [Text("\r\n")]), e)
    ensures ProcessByte(c, e, CR).idx == 0
    ensures (c.out + [Text("\r\n")]) <= ProcessByte(c, e, CR).out
  {
  }

  /**
   * The QUIET filter: in QUIET mode, once a byte is stored, a message whose
   * first byte is not ^B or one of D N V R S M P (either case) is dropped;
   * the byte is echoed, the buffer emptied and nothing else changes.
   */
  lemma QuietFilter(c: ConState, e: Env, j: byte)
    requires Wf(c) && WfEnv(e) && j != CR && j != BS && c.idx < |c.buf|
    requires c.mode == Quiet && c.idx != 0 && !QuietKeeps(c.buf[0])
    ensures ProcessByte(c, e, j) == EchoByte(c, j).(idx := 0)
  {
  }

  /** The filter does not look at the byte that starts a message: in QUIET mode any first byte is stored. */
  lemma QuietStoresFirstByte(c: ConState, e: Env, j: byte)
    requires Wf(c) && WfEnv(e) && j != CR && j != BS
    requires c.mode == Quiet && c.idx == 0
    ensures ProcessByte(c, e, j) == EchoByte(c, j).(buf := c.buf[0 := j], idx := 1)
  {
  }

  /**
   * A stored byte goes to msg_buf[msg_buf_idx]; the third one dispatches
   * the message at once, with msg_buf_idx == 3.
   */
  lemma StoreByte(c: ConState, e: Env, j: byte)
    requires Wf(c) && WfEnv(e) && EditOf(c, j) == Store
    ensures c.idx < 2 ==> ProcessByte(c, e, j) == EchoByte(c, j).(buf := c.buf[c.idx := j], idx := c.idx + 1)
    ensures c.idx >= 2 ==> ProcessByte(c, e, j) == MsgProcess(EchoByte(c, j).(buf := c.buf[c.idx := j], idx := c.idx + 1), e)
  {
    assert j != CR && j != BS;
  }

  // ---------------------------------------------------------------------
  // Properties of the command dispatcher
  // ---------------------------------------------------------------------

  predicate Holds(c: ConState, a: char, b: char, d: char)
    requires Wf(c)
  {
    c.buf[0] == a as int && c.buf[1] == b as int && c.buf[2] == d as int
  }

  /** The reply to a rejected message: an error text, and no other change but the emptied buffer. */
  function Rejected(c: ConState, text: string): ConState
  {
    c.(out := c.out + [Text(text)], idx := 0)
  }

  /**
   * The mode words DEB, NOR and QUI, typed in one case with exactly three
   * bytes in the buffer, set the mode, announce it and restart the display
   * timer; nothing else changes.
   */
  lemma ModeWords(c: ConState, e: Env)
    requires Wf(c) && WfEnv(e) && c.idx == 3
    ensures Holds(c, 'D', 'E', 'B') || Holds(c, 'd', 'e', 'b') ==>
      MsgProcess(c, e) == c.(mode := Debug, out := c.out + [Text(ModeDebugText)], displayTimer := 0, idx := 0)
    ensures Holds(c, 'N', 'O', 'R') || Holds(c, 'n', 'o', 'r') ==>
      MsgProcess(c, e) == c.(mode := Normal, out := c.out + [Text(ModeNormalText)], displayTimer := 0, idx := 0)
    ensures Holds(c, 'Q', 'U', 'I') || Holds(c, 'q', 'u', 'i') ==>
      MsgProcess(c, e) == c.(mode := Quiet, out := c.out + [Text(ModeQuietText)], displayTimer := 0, idx := 0)
  {
    CommandLetters(c.buf[0]);
  }

  /** A mode word with the wrong letters, mixed case, or a length other than three is an error. */
  lemma MalformedModeWord(c: ConState, e: Env)
    requires Wf(c) && WfEnv(e)
    ensures c.buf[0] == 'D' as int && !(c.idx == 3 && Holds(c, 'D', 'E', 'B')) ==> MsgProcess(c, e) == Rejected(c, ErrorText)
    ensures c.buf[0] == 'd' as int && !(c.idx == 3 && Holds(c, 'd', 'e', 'b')) ==> MsgProcess(c, e) == Rejected(c, ErrorText)
    ensures c.buf[0] == 'N' as int && !(c.idx == 3 && Holds(c, 'N', 'O', 'R')) ==> MsgProcess(c, e) == Rejected(c, ErrorText)
    ensures c.buf[0] == 'n' as int && !(c.idx == 3 && Holds(c, 'n', 'o', 'r')) ==> MsgProcess(c, e) == Rejected(c, ErrorText)
    ensures c.buf[0] == 'Q' as int && !(c.idx == 3 && Holds(c, 'Q', 'U', 'I')) ==> MsgProcess(c, e) == Rejected(c, ErrorText)
    ensures c.buf[0] == 'q' as int && !(c.idx == 3 && Holds(c, 'q', 'u', 'i')) ==> MsgProcess(c, e) == Rejected(c, ErrorText)
  {
    CommandLetters(c.buf[0]);
  }

  /** The letters the dispatcher knows, in either case. */
  predicate IsCommand(b: byte)
  {
    b in {'D' as int, 'N' as int, 'Q' as int, 'V' as int, 'R' as int, 'S' as int, 'M' as int, 'P' as int,
          'd' as int, 'n' as int, 'q' as int, 'v' as int, 'r' as int, 's' as int, 'm' as int, 'p' as int}
  }

  /** Any other first byte is an error with no state change. */
  lemma UnknownCommand(c: ConState, e: Env)
    requires Wf(c) && WfEnv(e) && !IsCommand(c.buf[0])
    ensures MsgProcess(c, e) == Rejected(c, ErrorText)
  {
    CommandLetters(c.buf[0]);
  }

  /**
   * The single-letter commands do not look at msg_buf_idx: V selects
   * VERSION and prints the version banner, P toggles only pause_flag.
   */
  lemma SingleLetters(c: ConState, e: Env)
    requires Wf(c) && WfEnv(e)
    ensures c.buf[0] in {'V' as int, 'v' as int} ==>
      MsgProcess(c, e) == c.(mode := Version, out := c.out + [Text("\r\n"), Text(e.version), Text("\r\nSelect  ")],
                             displayTimer := 0, idx := 0)
    ensures c.buf[0] in {'P' as int, 'p' as int} ==> MsgProcess(c, e) == c.(pause := !c.pause, idx := 0)
  {
    CommandLetters(c.buf[0]);
  }

  /** R, S and M outside DEBUG mode are refused with their own message and change nothing else. */
  lemma DebugGate(c: ConState, e: Env)
    requires Wf(c) && WfEnv(e) && c.mode != Debug
    requires c.buf[0] in {'R' as int, 'S' as int, 'M' as int, 'r' as int, 's' as int, 'm' as int}
    ensures MsgProcess(c, e) == Rejected(c, NotDebugText)
  {
    CommandLetters(c.buf[0]);
  }

  /**
   * In DEBUG mode R lists the registers and S dumps the 16 bytes from the
   * sp, four rows of four; both restart the display timer.
   */
  lemma DebugDumps(c: ConState, e: Env)
    requires Wf(c) && WfEnv(e) && c.mode == Debug
    ensures c.buf[0] in {'R' as int, 'r' as int} ==>
      MsgProcess(c, e) == c.(out := c.out + PrintRegs(e.regs), displayTimer := 0, idx := 0)
    ensures c.buf[0] in {'S' as int, 's' as int} ==>
      MsgProcess(c, e) == c.(out := c.out + [Text(StackText)] + Dump(e.mem, e.sp, StackDumpBytes), displayTimer := 0, idx := 0)
    ensures |Rows(e.mem, e.sp, StackDumpBytes)| == 4
  {
    CommandLetters(c.buf[0]);
    RowsCount(e.mem, e.sp, StackDumpBytes);
  }

  /** The letter case of a command does not matter, as long as the whole word is in one case. */
  lemma CaseInsensitive(c: ConState, e: Env)
    requires Wf(c) && WfEnv(e)
    requires forall k :: 0 <= k < 3 ==> 'A' as int <= c.buf[k] <= 'Z' as int
    ensures var low := c.(buf := c.buf[0 := c.buf[0] + 0x20][1 := c.buf[1] + 0x20][2 := c.buf[2] + 0x20]);
      MsgProcess(low, e) == MsgProcess(c, e).(buf := low.buf)
  {
    var low := c.(buf := c.buf[0 := c.buf[0] + 0x20][1 := c.buf[1] + 0x20][2 := c.buf[2] + 0x20]);
    CommandLetters(c.buf[0]);
    CommandLetters(low.buf[0]);
    assert CommandOf(low.buf[0]) == CommandOf(c.buf[0]);
    assert Word(low, 'E', 'B', false) == Word(c, 'E', 'B', true);
    assert Word(low, 'O', 'R', false) == Word(c, 'O', 'R', true);
    assert Word(low, 'U', 'I', false) == Word(c, 'U', 'I', true);
    assert Dispatch(low, e) == Dispatch(c, e).(buf := low.buf);
  }

  /** Only D, N, Q and V change display_mode, and only P changes pause_flag. */
  lemma WhoChangesWhat(c: ConState, e: Env)
    requires Wf(c) && WfEnv(e)
    ensures MsgProcess(c, e).mode != c.mode ==>
      c.buf[0] in {'D' as int, 'N' as int, 'Q' as int, 'V' as int, 'd' as int, 'n' as int, 'q' as int, 'v' as int}
    ensures MsgProcess(c, e).pause != c.pause ==> c.buf[0] in {'P' as int, 'p' as int}
  {
    CommandLetters(c.buf[0]);
  }

  // ---------------------------------------------------------------------
  // collectHex
  // ---------------------------------------------------------------------

  /** collectHex consumes exactly the bytes it stores: stored and unread make up rx. */
  lemma {:induction false} GatherSplit(rx: seq<byte>, room: nat)
    ensures Gather(rx, room) + Unread(rx, room) == rx
    decreases |rx|
  {
    if rx != [] && room != 0 && rx[0] != CR && room != 1 {
      GatherSplit(rx[1..], room - 1);
      assert rx == [rx[0]] + rx[1..];
    }
  }

  /** rest is what is left of the received bytes rx after some were read from the front. */
  predicate Consumed(rx: seq<byte>, rest: seq<byte>)
  {
    |rest| <= |rx| && rest == rx[|rx| - |rest|..]
  }

  /** The bytes collectHex leaves unread are a suffix of the queue: it reads only from the front. */
  lemma UnreadConsumed(rx: seq<byte>, room: nat)
    ensures Consumed(rx, Unread(rx, room))
  {
    GatherSplit(rx, room);
    var g := Gather(rx, room);
    assert rx[|g|..] == Unread(rx, room);
  }

  /** The memory command reads received bytes only from the front of the queue. */
  lemma MemCommandConsumed(c: ConState, e: Env)
    requires WfEnv(e)
    ensures Consumed(c.rx, MemCommand(c, e).rx)
  {
    UnreadConsumed(c.rx, e.txBufSize - 1);
  }

  /**
   * The invariant of collectHex's loop, started on rx0 with room bytes of
   * buffer: while collecting, what is stored and what Gather will still
   * take from the pending bytes make up the whole entry; once done, the
   * entry is stored and the bytes after it are pending.
   */
  predicate Collecting(rx0: seq<byte>, room: nat, stored: seq<byte>, rx: seq<byte>, done: bool)
  {
    if done then
      stored == Gather(rx0, room) && rx == Unread(rx0, room)
    else
      && |stored| < room
      && stored + Gather(rx, room - |stored|) == Gather(rx0, room)
      && Unread(rx, room - |stored|) == Unread(rx0, room)
  }

  /** Storing the next pending byte keeps the invariant; the loop is done at a '\r' or a full buffer. */
  lemma CollectStep(rx0: seq<byte>, room: nat, stored: seq<byte>, rx: seq<byte>)
    requires Collecting(rx0, room, stored, rx, false) && rx != []
    ensures Collecting(rx0, room, stored + [rx[0]], rx[1..], rx[0] == CR || |stored| + 1 >= room)
  {
    var k := room - |stored|;
    if rx[0] == CR || k == 1 {
      assert Gather(rx, k) == [rx[0]];
    } else {
      assert Gather(rx, k) == [rx[0]] + Gather(rx[1..], k - 1);
      assert stored + [rx[0]] + Gather(rx[1..], k - 1) == stored + Gather(rx, k);
    }
  }

  /** With nothing pending the entry ends with what is stored. */
  lemma CollectDry(rx0: seq<byte>, room: nat, stored: seq<byte>)
    requires Collecting(rx0, room, stored, [], false)
    ensures Collecting(rx0, room, stored, [], true)
  {
    assert stored + [] == stored;
  }

  /** Before the first byte nothing is stored and the whole of rx0 is pending. */
  lemma CollectStart(rx0: seq<byte>, room: nat)
    requires room > 0
    ensures Collecting(rx0, room, [], rx0, false)
  {
    assert [] + Gather(rx0, room) == Gather(rx0, room);
  }

  /**
   * An entry ended by '\r' within the buffer is stored up to and including
   * the '\r', and what follows is left unread.
   */
  lemma {:induction false} GatherLine(ds: seq<byte>, rest: seq<byte>, room: nat)
    requires CR !in ds && |ds| < room
    ensures Gather(ds + [CR] + rest, room) == ds + [CR]
    ensures Unread(ds + [CR] + rest, room) == rest
    decreases |ds|
  {
    if ds != [] {
      assert (ds + [CR] + rest)[1..] == ds[1..] + [CR] + rest;
      GatherLine(ds[1..], rest, room - 1);
    }
  }

  /** Without a '\r', collectHex stops once the buffer is full. */
  lemma {:induction false} GatherFull(rx: seq<byte>, room: nat)
    requires room <= |rx| && CR !in rx[..room]
    ensures Gather(rx, room) == rx[..room]
    decreases room
  {
    if room > 1 {
      assert rx[1..][..room - 1] == rx[1..room];
      GatherFull(rx[1..], room - 1);
    }
  }

  /** A C string followed by its NUL reads back as itself. */
  lemma {:induction false} CStrOf(ds: seq<byte>)
    requires 0 !in ds
    ensures CStr(ds + [0]) == ds
    decreases |ds|
  {
    if ds != [] {
      assert (ds + [0])[1..] == ds[1..] + [0];
      CStrOf(ds[1..]);
    }
  }

  /** Echo of bytes none of which is NUL is one Char per byte. */
  lemma {:induction false} EchoAll(ds: seq<byte>)
    requires 0 !in ds
    ensures Echo(ds) == seq(|ds|, i requires 0 <= i < |ds| => Char(ds[i]))
    decreases |ds|
  {
    if ds != [] {
      EchoAll(ds[1..]);
    }
  }

  /** Echoing one more byte adds its character, or nothing for a NUL. */
  lemma {:induction false} EchoSnoc(bs: seq<byte>, b: byte)
    ensures Echo(bs + [b]) == Echo(bs) + (if b != 0 then [Char(b)] else [])
    decreases |bs|
  {
    if bs != [] {
      assert (bs + [b])[1..] == bs[1..] + [b];
      EchoSnoc(bs[1..], b);
    }
  }

  /** my_itoa's base-16 text holds neither NUL nor '\r'. */
  lemma HexTextPlain(v: int32)
    requires v != INT32_MIN
    ensures 0 !in Format(v, 16) && CR !in Format(v, 16)
  {
    FormatShape(v, 16);
    var m := Magnitude(Abs(v), 16);
    forall i | 0 <= i < |m|
      ensures m[i] != 0 && m[i] != CR
    {
      assert ValidDigit(m[i], 16);
    }
  }

  /**
   * collectHex reads back an address typed as my_itoa writes it in base 16
   * and ended by '\r': the value typed, as a uint32, with the '\r' and what
   * follows it left unread.
   */
  lemma ReadAddress(v: int32, rest: seq<byte>, e: Env)
    requires WfEnv(e) && v != INT32_MIN
    ensures var stored := Gather(Format(v, 16) + [CR] + rest, e.txBufSize - 1);
      && stored == Format(v, 16) + [CR]
      && Unread(Format(v, 16) + [CR] + rest, e.txBufSize - 1) == rest
      && HexValue(stored) == ToUnsigned32(v)
  {
    EntryLine(v, rest, e.txBufSize - 1);
    EntryValue(v);
  }

  /** The typed entry fits in collectHex's buffer, so it stops at the '\r'. */
  lemma EntryLine(v: int32, rest: seq<byte>, room: nat)
    requires v != INT32_MIN && room >= 33
    ensures Gather(Format(v, 16) + [CR] + rest, room) == Format(v, 16) + [CR]
    ensures Unread(Format(v, 16) + [CR] + rest, room) == rest
  {
    assert |Format(v, 16)| <= 32 by {
      FormatShape(v, 16);
    }
    HexTextPlain(v);
    GatherLine(Format(v, 16), rest, room);
  }

  /** collectHex echoes each byte of the typed entry, the '\r' included. */
  lemma EntryEcho(v: int32)
    requires v != INT32_MIN
    ensures var stored := Format(v, 16) + [CR];
      Echo(stored) == seq(|stored|, i requires 0 <= i < |stored| => Char(stored[i]))
  {
    HexTextPlain(v);
    EchoAll(Format(v, 16) + [CR]);
  }

  /** With the '\r' overwritten by NUL, my_atoi reads the entry back as the value typed. */
  lemma EntryValue(v: int32)
    requires v != INT32_MIN
    ensures HexValue(Format(v, 16) + [CR]) == ToUnsigned32(v)
  {
    var ds := Format(v, 16);
    var stored := ds + [CR];
    assert stored[..|stored| - 1] == ds;
    HexTextPlain(v);
    CStrOf(ds);
    RoundTrip(v, 16);
  }

  /**
   * The M command in DEBUG mode, given an address in hex ended by '\r':
   * it prompts, echoes the entry, and dumps the 32 bytes from that address
   * (or reports invalid input for address 0); what follows the '\r' is
   * left unread and nothing else changes.
   */
  lemma MemCommandDumps(c: ConState, e: Env, v: int32, rest: seq<byte>)
    requires Wf(c) && WfEnv(e) && c.mode == Debug && c.buf[0] in {'M' as int, 'm' as int}
    requires v != INT32_MIN && c.rx == Format(v, 16) + [CR] + rest
    ensures MsgProcess(c, e) ==
      c.(rx := rest, displayTimer := 0, idx := 0, out := c.out + MemOutput(e.mem, Format(v, 16) + [CR]))
    ensures MemOutput(e.mem, Format(v, 16) + [CR]) ==
      [Text(PromptText)] + Echo(Format(v, 16) + [CR]) + AddressReply(e.mem, ToUnsigned32(v))
  {
    ReadAddress(v, rest, e);
    MemCommandAt(c, e, Format(v, 16) + [CR], rest);
    MemDispatch(c, e);
    MemOutputOf(e.mem, Format(v, 16) + [CR], ToUnsigned32(v));
  }

  /** The M command's output for an entry that reads as address a. */
  lemma MemOutputOf(mem: Memory, stored: seq<byte>, a: uint32)
    requires HexValue(stored) == a
    ensures MemOutput(mem, stored) == [Text(PromptText)] + Echo(stored) + AddressReply(mem, a)
  {
  }

  /** The M command, for the entry collectHex stores and the bytes it leaves unread. */
  lemma MemCommandAt(c: ConState, e: Env, stored: seq<byte>, rest: seq<byte>)
    requires WfEnv(e) && stored == Gather(c.rx, e.txBufSize - 1) && rest == Unread(c.rx, e.txBufSize - 1)
    ensures MemCommand(c, e) == c.(rx := rest, displayTimer := 0, out := c.out + MemOutput(e.mem, stored))
  {
  }

  lemma MemDispatch(c: ConState, e: Env)
    requires Wf(c) && WfEnv(e) && c.mode == Debug && c.buf[0] in {'M' as int, 'm' as int}
    ensures MsgProcess(c, e) == MemCommand(c, e).(idx := 0)
  {
    CommandLetters(c.buf[0]);
  }

  // ---------------------------------------------------------------------
  // Properties of monitor
  // ---------------------------------------------------------------------

  /**
   * monitor writes something exactly in QUIET mode, or in NORMAL and DEBUG
   * mode when display_flag is 1 and the display is not paused.
   */
  lemma MonitorWrites(c: ConState, e: Env)
    requires WfEnv(e)
    ensures Monitor(c, e).out != c.out <==>
      c.mode == Quiet || ((c.mode == Normal || c.mode == Debug) && c.displayFlag == 1 && !c.pause)
    ensures c.out <= Monitor(c, e).out
  {
    if c.mode == Quiet {
      assert |Monitor(c, e).out| > |c.out|;
    } else if (c.mode == Normal || c.mode == Debug) && c.displayFlag == 1 && !c.pause {
      assert |Monitor(c, e).out| > |c.out|;
    }
  }

  /**
   * monitor lowers display_flag unconditionally in QUIET and VERSION mode,
   * and in NORMAL and DEBUG mode only when it renders; it touches nothing
   * but display_flag and the output.
   */
  lemma MonitorFlag(c: ConState, e: Env)
    requires WfEnv(e)
    ensures var r := Monitor(c, e);
      && r.displayFlag == (if c.mode == Quiet || c.mode == Version || (c.displayFlag == 1 && !c.pause) then 0 else c.displayFlag)
      && r.(out := c.out, displayFlag := c.displayFlag) == c
  {
  }

  /** One raise of display_flag gives at most one render: a second pass writes nothing more. */
  lemma {:induction false} RenderOnce(c: ConState, e: Env)
    requires WfEnv(e) && c.mode != Quiet
    ensures Monitor(Monitor(c, e), e) == Monitor(c, e)
  {
    MonitorFlag(c, e);
    var r := Monitor(c, e);
    MonitorWrites(r, e);
    MonitorFlag(r, e);
  }

  // ---------------------------------------------------------------------
  // Typed sessions
  // ---------------------------------------------------------------------

  /** A console at rest: empty buffer, nothing pending. */
  predicate Idle(c: ConState)
  {
    Wf(c) && c.idx == 0
  }

  /**
   * Typing "DEB" outside QUIET mode, whatever follows: the third letter
   * already dispatches, selects DEBUG and empties the buffer.
   */
  lemma TypedDeb(c: ConState, e: Env, rest: seq<byte>)
    requires Idle(c) && WfEnv(e) && c.mode != Quiet
    requires c.rx == ['D' as int, 'E' as int, 'B' as int] + rest
    ensures ChkUartMsg(c, e) ==
      ChkUartMsg(c.(rx := rest, buf := c.buf[0 := 'D' as int][1 := 'E' as int][2 := 'B' as int], idx := 0, mode := Debug,
                    displayTimer := 0, out := c.out + [Char('D' as int)] + [Char('E' as int)] + [Char('B' as int)] + [Text(ModeDebugText)]), e)
  {
    var D, E, B := 'D' as int, 'E' as int, 'B' as int;
    var c1 := c.(rx := [E, B] + rest, buf := c.buf[0 := D], idx := 1, out := c.out + [Char(D)]);
    var c2 := c1.(rx := [B] + rest, buf := c1.buf[1 := E], idx := 2, out := c1.out + [Char(E)]);
    var s3 := c2.(rx := rest, buf := c2.buf[2 := B], idx := 3, out := c2.out + [Char(B)]);
    assert ChkUartMsg(c, e) == ChkUartMsg(c1, e) by {
      assert c.rx == [D] + ([E, B] + rest);
      ChkStore(c, e, D, [E, B] + rest);
    }
    assert ChkUartMsg(c1, e) == ChkUartMsg(c2, e) by {
      assert c1.rx == [E] + ([B] + rest);
      ChkStore(c1, e, E, [B] + rest);
    }
    assert ChkUartMsg(c2, e) == ChkUartMsg(MsgProcess(s3, e), e) by {
      ChkStore(c2, e, B, rest);
    }
    var c3 := s3.(mode := Debug, out := s3.out + [Text(ModeDebugText)], displayTimer := 0, idx := 0);
    assert MsgProcess(s3, e) == c3 by {
      assert Holds(s3, 'D', 'E', 'B');
      ModeWords(s3, e);
    }
  }

  /**
   * Typing "DEB" then Enter outside QUIET mode: the Enter dispatches the
   * emptied buffer, whose stale "DEB" no longer has msg_buf_idx == 3, so an
   * error follows the mode message.
   */
  lemma TypedDebThenEnter(c: ConState, e: Env)
    requires Idle(c) && WfEnv(e) && c.mode != Quiet
    requires c.rx == ['D' as int, 'E' as int, 'B' as int, CR]
    ensures var r := ChkUartMsg(c, e);
      && r.mode == Debug && r.idx == 0 && r.displayTimer == 0 && r.pause == c.pause
      && r.out == c.out + [Char('D' as int), Char('E' as int), Char('B' as int), Text(ModeDebugText),
                           Text("\r\n"), Text(ErrorText)]
  {
    var c3 := c.(rx := [CR], buf := c.buf[0 := 'D' as int][1 := 'E' as int][2 := 'B' as int], idx := 0, mode := Debug,
                 displayTimer := 0, out := c.out + [Char('D' as int)] + [Char('E' as int)] + [Char('B' as int)] + [Text(ModeDebugText)]);
    assert ChkUartMsg(c, e) == ChkUartMsg(c3, e) by {
      assert c.rx == ['D' as int, 'E' as int, 'B' as int] + [CR];
      TypedDeb(c, e, [CR]);
    }
    var s4 := c3.(rx := [], out := c3.out + [Text("\r\n")]);
    assert ChkUartMsg(c3, e) == Rejected(s4, ErrorText) by {
      ChkEnter(c3, e);
      MalformedModeWord(s4, e);
    }
  }

  /** One pass of chk_UART_msg that stores a byte other than ^B. */
  lemma ChkStore(c: ConState, e: Env, j: byte, rest: seq<byte>)
    requires Wf(c) && WfEnv(e) && c.rx == [j] + rest && j != CtrlB
    requires EditOf(c, j) == Store
    ensures var c1 := c.(rx := rest, buf := c.buf[c.idx := j], idx := c.idx + 1, out := c.out + [Char(j)]);
      ChkUartMsg(c, e) == ChkUartMsg(if c1.idx > 2 then MsgProcess(c1, e) else c1, e)
  {
    var d := c.(rx := rest);
    assert c.rx[0] == j && c.rx[1..] == rest;
    assert ChkUartMsg(c, e) == ChkUartMsg(ProcessByte(d, e, j), e);
    assert EditOf(d, j) == Store;
    assert EchoByte(d, j) == d.(out := c.out + [Char(j)]);
  }

  /** One pass of chk_UART_msg that receives Enter. */
  lemma ChkEnter(c: ConState, e: Env)
    requires Wf(c) && WfEnv(e) && c.rx != [] && c.rx[0] == CR
    ensures ChkUartMsg(c, e) == ChkUartMsg(MsgProcess(c.(rx := c.rx[1..], out := c.out + [Text("\r\n")]), e), e)
  {
  }

  /** Typing "R" then Enter outside DEBUG mode: the echo, a new line, and the refusal only. */
  lemma TypedRegsOutsideDebug(c: ConState, e: Env)
    requires Idle(c) && WfEnv(e) && c.mode == Normal
    requires c.rx == ['R' as int, CR]
    ensures var r := ChkUartMsg(c, e);
      && r.mode == Normal && r.idx == 0 && r.pause == c.pause && r.displayTimer == c.displayTimer
      && r.out == c.out + [Char('R' as int), Text("\r\n"), Text(NotDebugText)]
  {
    var c1 := ProcessByte(c.(rx := c.rx[1..]), e, 'R' as int);
    var c2 := ProcessByte(c1.(rx := c1.rx[1..]), e, CR);
    assert c1.rx == c.rx[1..] && c2.rx == [];
    calc {
      ChkUartMsg(c, e);
      ChkUartMsg(c1, e);
      ChkUartMsg(c2, e);
      c2;
    }
  }
}
