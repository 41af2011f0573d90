/**
 The bytes that `.` writes to standard output. The executor prints
 `cell as u8 as char`, and `print!` writes a `char` in UTF-8: codes below 128
 as one byte, codes 128 to 255 as two. The diagnostic lines that appear
 between them on standard output are not part of this model.
 */
module Emission {
  import opened Cells

  datatype Option<T> = None | Some(value: T)

  /** The UTF-8 bytes of the character whose code is `b`. */
  function Utf8(b: Byte): (bytes: seq<Byte>)
    ensures |bytes| == 1 <==> b < 128
    ensures |bytes| == 1 || |bytes| == 2
    ensures b < 128 ==> bytes[0] == b
  {
    if b < 128 then [b]
    else [(0xC0 + b as int / 64) as Byte, (0x80 + b as int % 64) as Byte]
  }

  /** The bytes written for a sequence of printed character codes. */
  function Encode(codes: seq<Byte>): seq<Byte> {
    if |codes| == 0 then [] else Utf8(codes[0]) + Encode(codes[1..])
  }

  /** Reads back the character codes from bytes made of one-byte characters
      and two-byte characters below U+0100; `None` for anything else. */
  function Decode(bytes: seq<Byte>): Option<seq<Byte>>
    decreases |bytes|
  {
    if |bytes| == 0 then Some([])
    else if bytes[0] < 128 then
      match Decode(bytes[1..])
      case Some(rest) => Some([bytes[0]] + rest)
      case None => None
    else if |bytes| >= 2 && 0xC2 <= bytes[0] <= 0xC3 && 0x80 <= bytes[1] < 0xC0 then
      var code := (bytes[0] as int - 0xC0) * 64 + (bytes[1] as int - 0x80);
      match Decode(bytes[2..])
      case Some(rest) => Some([code as Byte] + rest)
      case None => None
    else None
  }

  /** Printing one more character appends its bytes to what was written. */
  lemma {:induction false} EncodeAppend(codes: seq<Byte>, b: Byte)
    ensures Encode(codes + [b]) == Encode(codes) + Utf8(b)
    decreases |codes|
  {
    if |codes| > 0 {
      assert (codes + [b])[1..] == codes[1..] + [b];
      EncodeAppend(codes[1..], b);
    }
  }

  /** The written bytes determine the printed codes. */
  lemma {:induction false} DecodeEncode(codes: seq<Byte>)
    ensures Decode(Encode(codes)) == Some(codes)
    decreases |codes|
  {
    if |codes| > 0 {
      var head := Utf8(codes[0]);
      var bytes := Encode(codes);
      DecodeEncode(codes[1..]);
      assert bytes == head + Encode(codes[1..]);
      if codes[0] < 128 {
        assert bytes[1..] == Encode(codes[1..]);
      } else {
        assert bytes[2..] == Encode(codes[1..]);
      }
      assert [codes[0]] + codes[1..] == codes;
    }
  }
}
