/**
 * The firmware's global variables as one object, and the routines of
 * module3/timer0.cpp and module3/Monitor.cpp that update them in place.
 * Each method is proved to leave the globals as the matching transition
 * function of module Timer0 or Console says, and to change nothing else.
 */
module Board {
  import opened Bytes
  import opened Uart
  import opened Codec
  import opened MemDump
  import opened Timer0
  import opened Console

  class Board {
    // timer0's globals
    var timerState: byte
    var longTimeState: byte
    const swtimer: array<byte>       // swtimer0 .. swtimer7
    var displayTimer: byte           // shared with the console
    var displayFlag: byte            // shared with the console
    var ledTimer: uint16
    var ledFlag: byte
    var systemTimerCount: uint32
    var timer0Count: uint16
    var swTimerIsrCounter: uint16

    // the console's globals
    const msgBuf: array<byte>        // msg_buf[MSG_BUF_SIZE]
    var msgBufIdx: nat
    var displayMode: Mode
    var pauseFlag: bool
    var rx: seq<byte>                // received, not yet read by UART_get
    var out: seq<Out>                // written to the UART so far

    predicate Valid()
      reads this
    {
      swtimer.Length == 8 && msgBuf.Length >= 3 && msgBufIdx <= msgBuf.Length && swtimer != msgBuf
    }

    /** The globals timer0 reads and writes. */
    function TimerView(): TimerState
      reads this, swtimer
    {
      TimerState(timerState, longTimeState, swtimer[..], displayTimer, displayFlag, ledTimer, ledFlag,
        systemTimerCount, timer0Count, swTimerIsrCounter)
    }

    /** The globals the console reads and writes. */
    function ConView(): ConState
      reads this, msgBuf
    {
      ConState(msgBuf[..], msgBufIdx, displayMode, pauseFlag, displayTimer, displayFlag, rx, out)
    }

    /**
     * The globals as the C runtime leaves them, all zero; the initial
     * display mode is the one given.
     */
    constructor(msgBufSize: nat, mode: Mode)
      requires msgBufSize >= 3
      ensures Valid()
      ensures TimerView() == TimerState(0, 0, [0, 0, 0, 0, 0, 0, 0, 0], 0, 0, 0, 0, 0, 0, 0)
      ensures ConView() == ConState(seq(msgBufSize, _ => 0), 0, mode, false, 0, 0, [], [])
    {
      timerState, longTimeState := 0, 0;
      swtimer := new byte[8](_ => 0);
      displayTimer, displayFlag := 0, 0;
      ledTimer, ledFlag := 0, 0;
      systemTimerCount, timer0Count, swTimerIsrCounter := 0, 0, 0;
      msgBuf := new byte[msgBufSize](_ => 0);
      msgBufIdx := 0;
      displayMode := mode;
      pauseFlag := false;
      rx, out := [], [];
    }

    // -------------------------------------------------------------------
    // timer0
    // -------------------------------------------------------------------

    /** timer0: one 100 us step of the scheduler; ledToggleTicks is LED_TOGGLE_TICKS. */
    method Timer0(ledToggleTicks: nat)
      requires Valid()
      modifies this, swtimer
      ensures Valid()
      ensures TimerView() == Tick(old(TimerView()), ledToggleTicks)
      ensures ConView() == old(ConView()).(displayTimer := displayTimer, displayFlag := displayFlag)
    {
      StateCalc();
      FastGroup();
      TaskGroups();
      LedGroup(ledToggleTicks);
      Counters();
    }

    /** Section I: timer_state and long_time_state. */
    method StateCalc()
      requires Valid()
      modifies this
      ensures Valid()
      ensures TimerView() == Clock(old(TimerView()))
      ensures ConView() == old(ConView())
    {
      timerState := (timerState + 1) % 0x100;
      if timerState == 0 {
        longTimeState := (longTimeState + 1) % 0x100;
      }
    }

    /** The heartbeat / LED group. */
    method LedGroup(ledToggleTicks: nat)
      requires Valid()
      modifies this
      ensures Valid()
      ensures TimerView() == Heartbeat(old(TimerView()), ledToggleTicks)
      ensures ConView() == old(ConView())
    {
      if ledTimer > ledToggleTicks {
        ledFlag := 1;
        ledTimer := 0;
      } else {
        ledTimer := (ledTimer + 1) % 0x1_0000;
      }
    }

    /** System_Timer_count++, timer0_count++, SwTimerIsrCounter++. */
    method Counters()
      requires Valid()
      modifies this
      ensures Valid()
      ensures TimerView() == Count(old(TimerView()))
      ensures ConView() == old(ConView())
    {
      systemTimerCount := (systemTimerCount + 1) % TWO32;
      timer0Count := (timer0Count + 1) % 0x1_0000;
      swTimerIsrCounter := (swTimerIsrCounter + 1) % 0x1_0000;
    }

    /** The 100 us group: swtimer0 and swtimer1. */
    method FastGroup()
      requires Valid()
      modifies swtimer
      ensures TimerView() == Fast(old(TimerView()))
      ensures msgBuf[..] == old(msgBuf[..])
    {
      DecTimer(0);
      DecTimer(1);
    }

    /** The if / else-if chain on timer_state. */
    method TaskGroups()
      requires Valid()
      modifies this, swtimer
      ensures Valid()
      ensures TimerView() == Groups(old(TimerView()))
      ensures ConView() == old(ConView()).(displayTimer := displayTimer, displayFlag := displayFlag)
    {
      if timerState % 2 == 1 {
        // 200 us group: nothing
      } else if timerState / 2 % 2 == 1 {
        DecTimer(2);
        DecTimer(3);
      } else if timerState / 4 % 2 == 1 {
        // 800 us group: nothing
      } else if timerState / 8 % 2 == 1 {
        // 1.6 ms group: nothing
      } else if timerState / 16 % 2 == 1 {
        DecTimer(4);
        DecTimer(5);
      } else if timerState / 32 % 2 == 1 {
        DecTimer(6);
        DecTimer(7);
      } else {
        displayTimer := (displayTimer + 0xFF) % 0x100;
        if displayTimer == 1 {
          displayFlag := 1;
        }
      }
    }

    /** `if (swtimerI > 0) swtimerI--;` */
    method DecTimer(i: nat)
      requires Valid() && i < 8
      modifies swtimer
      ensures swtimer[..] == old(swtimer[..])[i := Dec(old(swtimer[i]))]
      ensures msgBuf[..] == old(msgBuf[..])
    {
      if swtimer[i] > 0 {
        swtimer[i] := swtimer[i] - 1;
      }
    }

    // -------------------------------------------------------------------
    // chk_UART_msg
    // -------------------------------------------------------------------

    /** chk_UART_msg: read and handle received bytes while any is pending. */
    method ChkUartMsg(e: Env)
      requires Valid() && WfEnv(e)
      modifies this, msgBuf
      ensures Valid()
      ensures ConView() == Console.ChkUartMsg(old(ConView()), e)
      ensures TimerView() == old(TimerView()).(displayTimer := displayTimer)
    {
      while rx != []
        invariant Valid()
        invariant Console.ChkUartMsg(ConView(), e) == Console.ChkUartMsg(old(ConView()), e)
        invariant TimerView() == old(TimerView()).(displayTimer := displayTimer)
        decreases |rx|
      {
        var j := rx[0];
        rx := rx[1..];
        Receive(j, e);
      }
    }

    /** The body of chk_UART_msg's loop for the byte j just read. */
    method Receive(j: byte, e: Env)
      requires Valid() && WfEnv(e)
      modifies this, msgBuf
      ensures Valid()
      ensures ConView() == ProcessByte(old(ConView()), e, j)
      ensures TimerView() == old(TimerView()).(displayTimer := displayTimer)
    {
      if j == CR {
        out := out + [Text("\r\n")];
        MsgProcess(e);
      } else {
        if j != CtrlB {
          out := out + [Char(j)];
        }
        if j == BS {
          if msgBufIdx != 0 {
            out := out + [Text(EraseText)];
            msgBufIdx := msgBufIdx - 1;
          }
        } else if msgBufIdx >= msgBuf.Length {
          out := out + [Text(TooLongText)];
          msgBufIdx := 0;
        } else if displayMode == Quiet && !QuietKeeps(msgBuf[0]) && msgBufIdx != 0 {
          msgBufIdx := 0;
        } else {
          msgBuf[msgBufIdx] := j;
          msgBufIdx := msgBufIdx + 1;
          if msgBufIdx > 2 {
            MsgProcess(e);
          }
        }
      }
    }

    // -------------------------------------------------------------------
    // UART_msg_process
    // -------------------------------------------------------------------

    /** UART_msg_process: the switch for msg_buf[0]'s case, the error report, then an empty buffer. */
    method MsgProcess(e: Env)
      requires Valid() && WfEnv(e)
      modifies this
      ensures Valid()
      ensures ConView() == Console.MsgProcess(old(ConView()), e)
      ensures TimerView() == old(TimerView()).(displayTimer := displayTimer)
    {
      var err;
      if msgBuf[0] <= 0x60 {
        err := UpperCase(e);
      } else {
        err := LowerCase(e);
      }
      if err == 1 {
        out := out + [Text(ErrorText)];
      } else if err == 2 {
        out := out + [Text(NotDebugText)];
      }
      msgBufIdx := 0;
    }

    /** The upper-case switch, which sets err rather than printing the error. */
    method UpperCase(e: Env) returns (err: nat)
      requires Valid() && WfEnv(e) && msgBuf[0] <= 0x60
      modifies this
      ensures Valid()
      ensures Reported(ConView(), err) == Dispatch(old(ConView()), e)
      ensures TimerView() == old(TimerView()).(displayTimer := displayTimer)
    {
      var chr := msgBuf[0];
      err := 0;
      if chr == 'D' as int {
        if msgBuf[1] == 'E' as int && msgBuf[2] == 'B' as int && msgBufIdx == 3 {
          SelectMode(Debug, ModeDebugText);
        } else {
          err := 1;
        }
      } else if chr == 'N' as int {
        if msgBuf[1] == 'O' as int && msgBuf[2] == 'R' as int && msgBufIdx == 3 {
          SelectMode(Normal, ModeNormalText);
        } else {
          err := 1;
        }
      } else if chr == 'Q' as int {
        if msgBuf[1] == 'U' as int && msgBuf[2] == 'I' as int && msgBufIdx == 3 {
          SelectMode(Quiet, ModeQuietText);
        } else {
          err := 1;
        }
      } else if chr == 'V' as int {
        ShowVersion(e);
      } else if chr == 'R' as int {
        if displayMode != Debug {
          err := 2;
        } else {
          ShowRegs(e);
        }
      } else if chr == 'S' as int {
        if displayMode != Debug {
          err := 2;
        } else {
          ShowStack(e);
        }
      } else if chr == 'M' as int {
        if displayMode != Debug {
          err := 2;
        } else {
          ShowMemory(e);
        }
      } else if chr == 'P' as int {
        pauseFlag := !pauseFlag;
      } else {
        err := 1;
      }
    }

    /** The lower-case switch, the same cases on the lower-case letters. */
    method LowerCase(e: Env) returns (err: nat)
      requires Valid() && WfEnv(e) && msgBuf[0] > 0x60
      modifies this
      ensures Valid()
      ensures Reported(ConView(), err) == Dispatch(old(ConView()), e)
      ensures TimerView() == old(TimerView()).(displayTimer := displayTimer)
    {
      var chr := msgBuf[0];
      err := 0;
      if chr == 'd' as int {
        if msgBuf[1] == 'e' as int && msgBuf[2] == 'b' as int && msgBufIdx == 3 {
          SelectMode(Debug, ModeDebugText);
        } else {
          err := 1;
        }
      } else if chr == 'n' as int {
        if msgBuf[1] == 'o' as int && msgBuf[2] == 'r' as int && msgBufIdx == 3 {
          SelectMode(Normal, ModeNormalText);
        } else {
          err := 1;
        }
      } else if chr == 'q' as int {
        if msgBuf[1] == 'u' as int && msgBuf[2] == 'i' as int && msgBufIdx == 3 {
          SelectMode(Quiet, ModeQuietText);
        } else {
          err := 1;
        }
      } else if chr == 'v' as int {
        ShowVersion(e);
      } else if chr == 'r' as int {
        if displayMode != Debug {
          err := 2;
        } else {
          ShowRegs(e);
        }
      } else if chr == 's' as int {
        if displayMode != Debug {
          err := 2;
        } else {
          ShowStack(e);
        }
      } else if chr == 'm' as int {
        if displayMode != Debug {
          err := 2;
        } else {
          ShowMemory(e);
        }
      } else if chr == 'p' as int {
        pauseFlag := !pauseFlag;
      } else {
        err := 1;
      }
    }

    /** A well-formed mode word: the new mode, its banner, and a restarted display timer. */
    method SelectMode(m: Mode, text: string)
      requires Valid()
      modifies this
      ensures Valid()
      ensures ConView() == old(ConView()).(mode := m, out := old(out) + [Text(text)], displayTimer := 0)
      ensures TimerView() == old(TimerView()).(displayTimer := 0)
    {
      displayMode := m;
      out := out + [Text(text)];
      displayTimer := 0;
    }

    /** V: VERSION mode and the version banner. */
    method ShowVersion(e: Env)
      requires Valid()
      modifies this
      ensures Valid()
      ensures ConView() == VersionCommand(old(ConView()), e)
      ensures TimerView() == old(TimerView()).(displayTimer := 0)
    {
      displayMode := Version;
      out := out + [Text("\r\n"), Text(e.version), Text("\r\nSelect  ")];
      displayTimer := 0;
    }

    /** R in DEBUG mode: printRegs. */
    method ShowRegs(e: Env)
      requires Valid() && WfEnv(e)
      modifies this
      ensures Valid()
      ensures ConView() == RegsCommand(old(ConView()), e)
      ensures TimerView() == old(TimerView()).(displayTimer := 0)
    {
      ghost var c0 := ConView();
      var lines := PrintRegs(e.regs);
      out := out + lines;
      displayTimer := 0;
      assert ConView() == c0.(out := c0.out + lines, displayTimer := 0);
    }

    /** S in DEBUG mode: the banner and print_mem of 16 bytes from sp. */
    method ShowStack(e: Env)
      requires Valid()
      modifies this
      ensures Valid()
      ensures ConView() == StackCommand(old(ConView()), e)
      ensures TimerView() == old(TimerView()).(displayTimer := 0)
    {
      out := out + [Text(StackText)];
      var dump := PrintMem(e.mem, e.sp, StackDumpBytes);
      out := out + dump;
      displayTimer := 0;
    }

    /** M in DEBUG mode: the prompt, collectHex, then print_mem of 32 bytes, or a refusal for 0. */
    method ShowMemory(e: Env)
      requires Valid() && WfEnv(e)
      modifies this
      ensures Valid()
      ensures ConView() == MemCommand(old(ConView()), e)
      ensures TimerView() == old(TimerView()).(displayTimer := 0)
    {
      ghost var c0 := ConView();
      ghost var stored, rest := Gather(rx, e.txBufSize - 1), Unread(rx, e.txBufSize - 1);
      out := out + [Text(PromptText)];
      var result := CollectHex(e);
      var reply := AddressDump(e.mem, result);
      out := out + reply;
      displayTimer := 0;
      MemCommandAt(c0, e, stored, rest);
      MemOutputOf(e.mem, stored, result);
      Appended3(c0.out, [Text(PromptText)], Echo(stored), reply);
    }

    // -------------------------------------------------------------------
    // collectHex
    // -------------------------------------------------------------------

    /**
     * collectHex: store and echo received bytes up to a '\r' or until
     * TX_BUF_SIZE - 1 are stored, overwrite the last with NUL, and convert
     * the buffer with my_atoi in base 16.  The wait for input is not
     * modelled: the entry also ends when no byte is pending.
     */
    method CollectHex(e: Env) returns (result: uint32)
      requires Valid() && WfEnv(e)
      modifies this
      ensures Valid()
      ensures result == HexValue(Gather(old(rx), e.txBufSize - 1))
      ensures ConView() == old(ConView()).(rx := Unread(old(rx), e.txBufSize - 1),
        out := old(out) + Echo(Gather(old(rx), e.txBufSize - 1)))
      ensures TimerView() == old(TimerView())
    {
      var tempBuff := new byte[e.txBufSize];
      var n := ReadEntry(tempBuff);
      ghost var entry := tempBuff[..n];
      ghost var view := ConView();
      result := EntryValue(tempBuff, n);
      assert result == HexValue(entry);
      assert ConView() == view;
    }

    /** collectHex's do-while loop: the number of bytes it stores into tempBuff. */
    method ReadEntry(tempBuff: array<byte>) returns (n: nat)
      requires Valid() && 2 <= tempBuff.Length <= 256 && tempBuff != msgBuf && tempBuff != swtimer
      modifies this, tempBuff
      ensures Valid()
      ensures n < tempBuff.Length
      ensures tempBuff[..n] == Gather(old(rx), tempBuff.Length - 1)
      ensures ConView() == old(ConView()).(rx := Unread(old(rx), tempBuff.Length - 1),
        out := old(out) + Echo(tempBuff[..n]))
      ensures TimerView() == old(TimerView())
    {
      var room := tempBuff.Length - 1;
      n := 0;
      var done := false;
      CollectStart(rx, room);
      while !done
        invariant n <= room
        invariant Collecting(old(rx), room, tempBuff[..n], rx, done)
        invariant ConView() == old(ConView()).(rx := rx, out := old(out) + Echo(tempBuff[..n]))
        invariant TimerView() == old(TimerView())
        decreases !done, |rx|
      {
        if rx == [] {
          CollectDry(old(rx), room, tempBuff[..n]);
          done := true;
        } else {
          ghost var before, pending := tempBuff[..n], rx;
          var b := ReadByte(tempBuff, n);
          CollectStep(old(rx), room, before, pending);
          EchoSnoc(before, b);
          n := n + 1;
          done := b == CR || n >= room;
        }
      }
    }

    /** One pass of collectHex's loop: UART_get into the buffer, then its echo. */
    method ReadByte(tempBuff: array<byte>, n: nat) returns (b: byte)
      requires Valid() && rx != [] && n < tempBuff.Length && tempBuff != msgBuf && tempBuff != swtimer
      modifies this, tempBuff
      ensures Valid()
      ensures b == old(rx[0]) && rx == old(rx[1..])
      ensures tempBuff[..n + 1] == old(tempBuff[..n]) + [b]
      ensures ConView() == old(ConView()).(rx := rx, out := old(out) + (if b != 0 then [Char(b)] else []))
      ensures TimerView() == old(TimerView())
    {
      b := rx[0];
      rx := rx[1..];
      tempBuff[n] := b;
      if b != 0 {
        out := out + [Char(b)];
      }
    }

    /** The NUL over the last stored byte, and my_atoi in base 16, as a uint32_t. */
    method EntryValue(tempBuff: array<byte>, n: nat) returns (result: uint32)
      requires n < tempBuff.Length <= 256
      modifies tempBuff
      ensures result == HexValue(old(tempBuff[..n]))
      ensures n > 0 ==> tempBuff[..] == old(tempBuff[..])[n - 1 := 0]
      ensures n == 0 ==> tempBuff[..] == old(tempBuff[..])
    {
      ghost var stored := tempBuff[..n];
      if n == 0 {
        result := 0;
      } else {
        tempBuff[n - 1] := 0;
        assert tempBuff[..n] == stored[..n - 1] + [0];
        CStrPrefix(tempBuff[..], n - 1);
        assert tempBuff[..][..n] == tempBuff[..n];
        var v := MyAtoi(tempBuff, 16);
        result := ToUnsigned32(v);
      }
    }

    // -------------------------------------------------------------------
    // monitor
    // -------------------------------------------------------------------

    /** monitor: one pass of the renderer. */
    method Monitor(e: Env)
      requires Valid() && WfEnv(e)
      modifies this
      ensures Valid()
      ensures ConView() == Console.Monitor(old(ConView()), e)
      ensures TimerView() == old(TimerView()).(displayFlag := displayFlag)
    {
      match displayMode
      case Quiet =>
        out := out + [Text("\r\n ")];
        displayFlag := 0;
      case Version =>
        displayFlag := 0;
      case Normal =>
        if displayFlag == 1 && !pauseFlag {
          out := out + Status("\r\nNORMAL ");
          displayFlag := 0;
        }
      case Debug =>
        if displayFlag == 1 && !pauseFlag {
          DebugDisplay(e);
        }
    }

    /** monitor's DEBUG output: status, registers, error count; then display_flag is cleared. */
    method DebugDisplay(e: Env)
      requires Valid() && WfEnv(e)
      modifies this
      ensures Valid()
      ensures ConView() == old(ConView()).(out := old(out) + DebugReport(e), displayFlag := 0)
      ensures TimerView() == old(TimerView()).(displayFlag := 0)
    {
      var report := DebugLines(e);
      out := out + report;
      displayFlag := 0;
    }
  }

  /** The lines monitor prints in DEBUG mode, appended one call at a time. */
  method DebugLines(e: Env) returns (o: seq<Out>)
    requires WfEnv(e)
    ensures o == DebugReport(e)
  {
    o := Status("\r\nDEBUG ");
    o := o + PrintRegs(e.regs);
    var count := ErrorCountText(e);
    o := o + [Text("\r\nUART Transmission Error Count:\t"), Text(count), Text("\r\n")];
  }

  /** my_itoa of error_count in base 10 into a TX_BUF_SIZE buffer, read back up to its NUL. */
  method ErrorCountText(e: Env) returns (text: string)
    requires WfEnv(e)
    ensures text == Chars(Format(e.errorCount, 10))
  {
    var tempBuff := new byte[e.txBufSize];
    FormatFits(e.errorCount, 10);
    var len := MyItoa(e.errorCount, tempBuff, 10);
    assert tempBuff[..len - 1] == tempBuff[..len][..len - 1];
    text := Chars(tempBuff[..len - 1]);
  }

  /** The reply to the address collectHex read: "Invalid input." for 0, else print_mem of 32 bytes. */
  method AddressDump(mem: Memory, addr: uint32) returns (o: seq<Out>)
    ensures o == AddressReply(mem, addr)
  {
    if addr == 0 {
      o := [Text(InvalidText)];
    } else {
      o := PrintMem(mem, addr, MemDumpBytes);
    }
  }

  /** Three appends in a row append their concatenation. */
  lemma Appended3<T>(o: seq<T>, a: seq<T>, b: seq<T>, c: seq<T>)
    ensures o + a + b + c == o + (a + b + c)
  {
  }

  /** UART_msg_process's report for err: "Error!" for 1, "Not in DEBUG Mode!" for 2. */
  function Reported(c: ConState, err: nat): ConState
  {
    if err == 1 then Put(c, [Text(ErrorText)])
    else if err == 2 then Put(c, [Text(NotDebugText)])
    else c
  }
}
