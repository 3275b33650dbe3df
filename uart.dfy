/**
 * The serial output of the firmware as an append-only log.  UART_put,
 * UART_msg_put, UART_direct_msg_put and UART_direct_hex_put are outside this
 * model; each call appends one event to the log.
 */
module Uart {
  import opened Bytes

  datatype Out =
    | Text(s: string)   // UART_msg_put / UART_direct_msg_put of a string
    | Char(c: byte)     // UART_put of one byte, or collectHex's one-character echo string
    | Hex(b: byte)      // UART_direct_hex_put of one byte

  /** The four bytes of a 32-bit value, most significant first (v>>24, (v>>16)&0xFF, (v>>8)&0xFF, v&0xFF). */
  function Split32(v: uint32): (bs: seq<byte>)
    ensures |bs| == 4
    ensures v == bs[0] as int * 0x100_0000 + bs[1] as int * 0x1_0000 + bs[2] as int * 0x100 + bs[3]
  {
    ShiftBytes(v);
    [v / 0x100_0000, (v / 0x1_0000) % 0x100, (v / 0x100) % 0x100, v % 0x100]
  }

  lemma ShiftBytes(v: uint32)
    ensures v / 0x100_0000 < 0x100
    ensures v == (v / 0x100_0000) * 0x100_0000 + ((v / 0x1_0000) % 0x100) * 0x1_0000
                 + ((v / 0x100) % 0x100) * 0x100 + v % 0x100
  {
    var a := v / 0x100;
    var b := a / 0x100;
    var c := b / 0x100;
    assert v == a * 0x100 + v % 0x100;
    assert a == b * 0x100 + a % 0x100;
    assert b == c * 0x100 + b % 0x100;
    assert b == v / 0x1_0000;
    assert c == v / 0x100_0000;
  }

  /** A 32-bit value printed as four UART_direct_hex_put calls. */
  function HexWord(v: uint32): (o: seq<Out>)
    ensures |o| == 4 && forall i :: 0 <= i < 4 ==> o[i].Hex? && o[i].b == Split32(v)[i]
  {
    var bs := Split32(v);
    [Hex(bs[0]), Hex(bs[1]), Hex(bs[2]), Hex(bs[3])]
  }

  /** The split is the big-endian byte decomposition: different words print differently. */
  lemma HexWordInjective(v: uint32, w: uint32)
    requires HexWord(v) == HexWord(w)
    ensures v == w
  {
    assert Split32(v) == Split32(w) by {
      assert forall i :: 0 <= i < 4 ==> Split32(v)[i] == HexWord(v)[i].b;
    }
  }

  /** A zero-extended byte prints as three zero bytes then itself. */
  lemma HexWordOfByte(b: byte)
    ensures HexWord(b) == [Hex(0), Hex(0), Hex(0), Hex(b)]
  {
  }
}
