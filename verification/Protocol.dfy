/** The GEP header codec and its constants: src/gep_protocol.cc, include/gep_protocol.h. */
module Protocol {
  import opened Bytes

  const MAX_MSG_LEN: nat := 0x10_0000
  const OFFSET_MAGIC: nat := 0
  const OFFSET_TAG: nat := 4
  const OFFSET_LEN: nat := 8
  const HDR_LEN: nat := 12

  /** What a channel is configured with: the protocol's magic number, the tags its dispatch
      table holds, and whether Unserialize accepts a body for a tag. */
  datatype Config = Config(magic: u32, ops: set<u32>, parses: (u32, seq<byte>) -> bool)

  datatype Scanned = Scanned(valid: bool, tag: u32, valueLen: u32)

  function Scan(magic: u32, s: seq<byte>): Scanned
    requires |s| >= HDR_LEN
  {
    Scanned(Value32(s[0..4]) == magic, Value32(s[4..8]), Value32(s[8..12]))
  }

  function Header(magic: u32, tag: u32, valueLen: u32): (h: seq<byte>)
    ensures |h| == HDR_LEN
  {
    Digits(magic, 4) + Digits(tag, 4) + Digits(valueLen, 4)
  }

  method ScanHeader(magic: u32, buf: array<byte>) returns (h: Scanned)
    requires buf.Length >= HDR_LEN
    ensures h == Scan(magic, buf[..])
  {
    var m := Uint32(buf, OFFSET_MAGIC);
    var tag := Uint32(buf, OFFSET_TAG);
    var valueLen := Uint32(buf, OFFSET_LEN);
    assert forall i, j | 0 <= i <= j <= buf.Length :: buf[..][i..j] == buf[i..j];
    h := Scanned(m == magic, tag, valueLen);
  }

  method PrintHeader(magic: u32, tag: u32, valueLen: u32, buf: array<byte>)
    requires buf.Length >= HDR_LEN
    modifies buf
    ensures buf[..] == Header(magic, tag, valueLen) + old(buf[HDR_LEN..])
  {
    SetUint32(buf, OFFSET_MAGIC, magic);
    SetUint32(buf, OFFSET_TAG, tag);
    SetUint32(buf, OFFSET_LEN, valueLen);
  }

  /** The wire format: twelve bytes, the magic number, the tag and the length of the value, each with its
      most significant byte first. */
  lemma HeaderLayout(magic: u32, tag: u32, valueLen: u32)
    ensures Header(magic, tag, valueLen) ==
      [magic / 0x100_0000 % 0x100, magic / 0x1_0000 % 0x100, magic / 0x100 % 0x100, magic % 0x100,
       tag / 0x100_0000 % 0x100, tag / 0x1_0000 % 0x100, tag / 0x100 % 0x100, tag % 0x100,
       valueLen / 0x100_0000 % 0x100, valueLen / 0x1_0000 % 0x100, valueLen / 0x100 % 0x100,
       valueLen % 0x100]
  {
    hide Digits;
    FourDigits(magic);
    FourDigits(tag);
    FourDigits(valueLen);
  }

  /** What PrintHeader writes, ScanHeader reads back, whatever follows in the buffer. */
  lemma ScanPrinted(magic: u32, tag: u32, valueLen: u32, post: seq<byte>)
    ensures Scan(magic, Header(magic, tag, valueLen) + post) == Scanned(true, tag, valueLen)
  {
    var s := Header(magic, tag, valueLen) + post;
    assert s[0..4] == Digits(magic, 4) && s[4..8] == Digits(tag, 4) && s[8..12] == Digits(valueLen, 4);
    Value32OfDigits(magic);
    Value32OfDigits(tag);
    Value32OfDigits(valueLen);
  }

  /** A header ScanHeader accepts is, byte for byte, the one PrintHeader writes for its fields. */
  lemma PrintScanned(magic: u32, s: seq<byte>)
    requires |s| >= HDR_LEN && Scan(magic, s).valid
    ensures Header(magic, Scan(magic, s).tag, Scan(magic, s).valueLen) == s[..HDR_LEN]
  {
    DigitsOfValue(s[0..4]);
    DigitsOfValue(s[4..8]);
    DigitsOfValue(s[8..12]);
    assert s[..HDR_LEN] == s[0..4] + s[4..8] + s[8..12];
  }
}
