/**
 * The memory dumper print_mem and the register listing printRegs of the
 * console (module3/Monitor.cpp).  Memory is a total function from 32-bit
 * addresses to bytes; the register values are a snapshot handed in by the
 * caller.
 */
module MemDump {
  import opened Bytes
  import opened Uart

  type Memory = uint32 -> byte

  function Min(a: int, b: int): int { if a <= b then a else b }

  /** One printed row: its address label and the bytes it shows. */
  datatype Row = Row(addr: uint32, bytes: seq<byte>)

  /**
   * The rows print_mem prints for length bytes from start: each row takes
   * the next (at most) four bytes, and the address advances modulo 2^32.
   */
  function Rows(mem: Memory, start: uint32, length: nat): seq<Row>
    decreases length
  {
    if length == 0 then []
    else
      var w := Min(4, length);
      [Row(start, RowBytes(mem, start, w))] + Rows(mem, (start + w) % TWO32, length - w)
  }

  /** The w bytes from p, the address advancing modulo 2^32. */
  function RowBytes(mem: Memory, p: uint32, w: nat): seq<byte>
  {
    seq(w, i requires 0 <= i < w => mem((p + i) % TWO32))
  }

  /** Adding after reducing modulo 2^32 is the same as adding first. */
  lemma ModShift(a: int, d: int)
    ensures (a % TWO32 + d) % TWO32 == (a + d) % TWO32
  {
    ModPeriodic(a + d, -(a / TWO32));
  }

  /** The address after k increments from p. */
  function Advance(p: uint32, k: nat): uint32
    decreases k
  {
    if k == 0 then p else Advance((p + 1) % TWO32, k - 1)
  }

  /** k increments of a 32-bit address add k modulo 2^32. */
  lemma {:induction false} AdvanceMod(p: uint32, k: nat)
    ensures Advance(p, k) == (p + k) % TWO32
    decreases k
  {
    if k > 0 {
      AdvanceMod((p + 1) % TWO32, k - 1);
      ModShift(p + 1, k - 1);
    }
  }

  /** The first row of a non-empty dump, and the rest starting after it. */
  lemma RowsUnfold(mem: Memory, start: uint32, length: nat)
    requires length > 0
    ensures var rs := Rows(mem, start, length);
      && rs[0].addr == start
      && rs[0].bytes == RowBytes(mem, start, Min(4, length))
      && rs[1..] == Rows(mem, (start + Min(4, length)) % TWO32, length - Min(4, length))
  {
  }

  /** A dump of length bytes has ceil(length/4) rows. */
  lemma {:induction false} RowsCount(mem: Memory, start: uint32, length: nat)
    ensures |Rows(mem, start, length)| == (length + 3) / 4
    decreases length
  {
    if length > 0 {
      RowsUnfold(mem, start, length);
      RowsCount(mem, (start + Min(4, length)) % TWO32, length - Min(4, length));
    }
  }

  /** print_mem's layout: row k is labelled start+4k and holds min(4, length-4k) bytes. */
  lemma {:induction false} RowsLayout(mem: Memory, start: uint32, length: nat, k: nat)
    requires k < |Rows(mem, start, length)|
    ensures Rows(mem, start, length)[k].addr == (start + 4 * k) % TWO32
    ensures |Rows(mem, start, length)[k].bytes| == Min(4, length - 4 * k)
    decreases k
  {
    RowsUnfold(mem, start, length);
    if k > 0 {
      var w := Min(4, length);
      var next := (start + w) % TWO32;
      assert Rows(mem, start, length)[k] == Rows(mem, next, length - w)[k - 1];
      RowsLayout(mem, next, length - w, k - 1);
      assert w == 4 by { RowsCount(mem, next, length - w); }
      ModShift(start + 4, 4 * (k - 1));
    }
  }

  /** Entry i of row k is the byte at address start+4k+i (modulo 2^32). */
  lemma {:induction false} RowsByte(mem: Memory, start: uint32, length: nat, k: nat, i: nat)
    requires k < |Rows(mem, start, length)|
    requires i < |Rows(mem, start, length)[k].bytes|
    ensures Rows(mem, start, length)[k].bytes[i] == mem((start + 4 * k + i) % TWO32)
    decreases k
  {
    RowsUnfold(mem, start, length);
    if k > 0 {
      var w := Min(4, length);
      var next := (start + w) % TWO32;
      assert Rows(mem, start, length)[k] == Rows(mem, next, length - w)[k - 1];
      RowsByte(mem, next, length - w, k - 1, i);
      assert w == 4 by { RowsCount(mem, next, length - w); }
      ModShift(start + 4, 4 * (k - 1) + i);
    }
  }

  /** One entry: a space, then the byte at the current address zero-extended to a 32-bit word. */
  function Entry(b: byte): seq<Out>
  {
    [Text(" ")] + HexWord(b)
  }

  function Entries(bs: seq<byte>): seq<Out>
  {
    if bs == [] then [] else Entry(bs[0]) + Entries(bs[1..])
  }

  function RowOut(r: Row): seq<Out>
  {
    HexWord(r.addr) + [Text(":")] + Entries(r.bytes) + [Text("\r\n")]
  }

  function Render(rs: seq<Row>): seq<Out>
  {
    if rs == [] then [] else RowOut(rs[0]) + Render(rs[1..])
  }

  /** The UART output of print_mem(start, length): its rows, rendered. */
  function Dump(mem: Memory, start: uint32, length: nat): seq<Out>
  {
    Render(Rows(mem, start, length))
  }

  /** A dump is its first row followed by the dump of the rest. */
  lemma RenderUnfold(mem: Memory, p: uint32, left: nat)
    requires left > 0
    ensures Dump(mem, p, left) == RowOut(Rows(mem, p, left)[0]) + Dump(mem, (p + Min(4, left)) % TWO32, left - Min(4, left))
  {
    var rs := Rows(mem, p, left);
    assert rs[1..] == Rows(mem, (p + Min(4, left)) % TWO32, left - Min(4, left));
  }

  /** print_mem: the UART output for length bytes from start. */
  method PrintMem(mem: Memory, start: uint32, length: uint32) returns (o: seq<Out>)
    ensures o == Dump(mem, start, length)
  {
    o := [];
    var p: uint32 := start;
    var i := 0;
    while i < length
      invariant i <= length
      invariant o + Dump(mem, p, length - i) == Dump(mem, start, length)
    {
      var line, next, n := PrintRow(mem, p, length - i);
      RenderUnfold(mem, p, length - i);
      o := o + line;
      p := next;
      i := i + n;
    }
  }

  /** One row of print_mem: the label, the row's entries, the line end. */
  method PrintRow(mem: Memory, p0: uint32, left: nat) returns (o: seq<Out>, p: uint32, n: nat)
    requires left > 0
    ensures n == Min(4, left)
    ensures p == (p0 + n) % TWO32
    ensures o == RowOut(Rows(mem, p0, left)[0])
  {
    var tempVal := p0;
    var entries;
    entries, p, n := PrintEntries(mem, p0, left);
    o := HexWord(tempVal) + [Text(":")] + entries + [Text("\r\n")];
    RowsUnfold(mem, p0, left);
    AdvanceMod(p0, n);
  }

  /** The inner loop of print_mem: entries while fewer than four have been printed and bytes remain. */
  method PrintEntries(mem: Memory, p0: uint32, left: nat) returns (o: seq<Out>, p: uint32, n: nat)
    ensures n == Min(4, left)
    ensures p == Advance(p0, n)
    ensures o == Entries(RowBytes(mem, p0, n))
  {
    ghost var w := Min(4, left);
    o := [];
    p := p0;
    n := 0;
    while n < 4 && n < left
      invariant 0 <= n <= w
      invariant Advance(p, w - n) == Advance(p0, w)
      invariant o + EntriesFrom(mem, p, w - n) == EntriesFrom(mem, p0, w)
    {
      o := o + Entry(mem(p));
      p := (p + 1) % TWO32;
      n := n + 1;
    }
    EntriesOfRow(mem, p0, w);
  }

  /** The entries for the k bytes from p, one byte at a time. */
  function EntriesFrom(mem: Memory, p: uint32, k: nat): seq<Out>
    decreases k
  {
    if k == 0 then [] else Entry(mem(p)) + EntriesFrom(mem, (p + 1) % TWO32, k - 1)
  }

  /** Printing the k bytes from p one at a time gives the entries of those bytes. */
  lemma {:induction false} EntriesOfRow(mem: Memory, p: uint32, k: nat)
    ensures EntriesFrom(mem, p, k) == Entries(RowBytes(mem, p, k))
    decreases k
  {
    if k > 0 {
      EntriesOfRow(mem, (p + 1) % TWO32, k - 1);
      RowBytesTail(mem, p, k);
    }
  }

  /** The bytes from p are the byte at p, then the bytes from p+1. */
  lemma RowBytesTail(mem: Memory, p: uint32, k: nat)
    requires k > 0
    ensures RowBytes(mem, p, k)[0] == mem(p)
    ensures RowBytes(mem, p, k)[1..] == RowBytes(mem, (p + 1) % TWO32, k - 1)
  {
    var bs, tail := RowBytes(mem, p, k), RowBytes(mem, (p + 1) % TWO32, k - 1);
    forall i | 0 <= i < k - 1
      ensures bs[1..][i] == tail[i]
    {
      ModShift(p + 1, i);
    }
  }

  /** The register labels printRegs uses, r0 to pc. */
  const RegNames: seq<string> :=
    ["r0", "r1", "r2", "r3", "r4", "r5", "r6", "r7", "r8", "r9", "r10", "r11", "r12", "sp", "lr", "pc"]

  function RegLines(regs: seq<uint32>, i: nat): seq<Out>
    requires |regs| == 16 && i <= 16
    decreases 16 - i
  {
    if i == 16 then []
    else [RegLabel(i)] + HexWord(regs[i]) + RegLines(regs, i + 1)
  }

  /** The line printRegs starts register i with. */
  function RegLabel(i: nat): Out
    requires i < 16
  {
    Text("\r\n" + RegNames[i] + ":\t")
  }

  /** printRegs: each of the 16 registers of the snapshot as a label and its four bytes. */
  function PrintRegs(regs: seq<uint32>): seq<Out>
    requires |regs| == 16
  {
    [Text(RegsBanner)] + (RegLines(regs, 0) + [Text("\r\n")])
  }

  const RegsBanner := "\r\n***Register values***"

  lemma {:induction false} RegLinesLength(regs: seq<uint32>, i: nat)
    requires |regs| == 16 && i <= 16
    ensures |RegLines(regs, i)| == 5 * (16 - i)
    decreases 16 - i
  {
    if i < 16 {
      RegLinesLength(regs, i + 1);
    }
  }

  lemma {:induction false} RegLinesLayout(regs: seq<uint32>, i: nat, k: nat)
    requires |regs| == 16 && i <= k < 16
    ensures 5 * (k - i) + 5 <= |RegLines(regs, i)|
    ensures RegLines(regs, i)[5 * (k - i)] == RegLabel(k)
    ensures RegLines(regs, i)[5 * (k - i) + 1..5 * (k - i) + 5] == HexWord(regs[k])
    decreases k - i
  {
    var head := [RegLabel(i)] + HexWord(regs[i]);
    var tail := RegLines(regs, i + 1);
    assert RegLines(regs, i) == head + tail;
    RegLinesLength(regs, i + 1);
    if k == i {
      assert (head + tail)[1..5] == head[1..5];
    } else {
      RegLinesLayout(regs, i + 1, k);
      var d := 5 * (k - i - 1);
      SliceAfter(head, tail, d + 5, d + 10);
    }
  }

  /** Indexing past a prefix of length |h| indexes the rest. */
  lemma SliceAfter<T>(h: seq<T>, t: seq<T>, a: nat, b: nat)
    requires |h| <= a < b <= |h| + |t|
    ensures (h + t)[a] == t[a - |h|]
    ensures (h + t)[a + 1..b] == t[a - |h| + 1..b - |h|]
  {
  }

  /** Where the entries of a framed sequence [b] + (xs + [e]) are. */
  lemma Framed<T>(b: T, xs: seq<T>, e: T, a: nat, c: nat)
    requires a < c <= |xs|
    ensures |[b] + (xs + [e])| == |xs| + 2
    ensures ([b] + (xs + [e]))[0] == b && ([b] + (xs + [e]))[|xs| + 1] == e
    ensures ([b] + (xs + [e]))[a + 1] == xs[a]
    ensures ([b] + (xs + [e]))[a + 2..c + 1] == xs[a + 1..c]
  {
    var f := [b] + (xs + [e]);
    assert f[a + 2..c + 1] == xs[a + 1..c];
  }

  /** The register dump is 82 events: the banner, five per register, and a closing line break. */
  lemma PrintRegsShape(regs: seq<uint32>)
    requires |regs| == 16
    ensures |PrintRegs(regs)| == 82
    ensures PrintRegs(regs)[0] == Text(RegsBanner) && PrintRegs(regs)[81] == Text("\r\n")
  {
    RegLinesLength(regs, 0);
    Framed(Text(RegsBanner), RegLines(regs, 0), Text("\r\n"), 0, 1);
  }

  /** Register k is printed as its label at 1 + 5k and its four bytes, most significant first, right after it. */
  lemma PrintRegsLayout(regs: seq<uint32>, k: nat)
    requires |regs| == 16 && k < 16
    ensures 6 + 5 * k <= |PrintRegs(regs)|
    ensures PrintRegs(regs)[1 + 5 * k] == RegLabel(k)
    ensures PrintRegs(regs)[2 + 5 * k..6 + 5 * k] == HexWord(regs[k])
  {
    RegLinesLength(regs, 0);
    RegLinesLayout(regs, 0, k);
    Framed(Text(RegsBanner), RegLines(regs, 0), Text("\r\n"), 5 * k, 5 * k + 5);
  }

}
