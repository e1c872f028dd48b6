/** The bounded printing loops of src/utils.cc, and the tag strings built on them. */
module Escape {
  import opened Bytes

  const MAX_TAG_STRING: nat := 17  // 4 * 4 + 1

  function HexDigit(n: nat): char
    requires n < 16
  {
    "0123456789abcdef"[n]
  }

  function Hex(b: byte): string {
    [HexDigit(b / 16), HexDigit(b % 16)]
  }

  // isprint() in the C locale.
  predicate Printable(b: byte) {
    0x20 <= b <= 0x7e
  }

  // What is printed for one byte: "%c" or "\\x%02x".
  function Escaped(b: byte): string {
    if Printable(b) then [b as char] else ['\\', 'x'] + Hex(b)
  }

  function Text(piece: byte -> string, data: seq<byte>): string {
    if data == [] then [] else piece(data[0]) + Text(piece, data[1..])
  }

  lemma {:induction false} TextAppend(piece: byte -> string, a: seq<byte>, b: seq<byte>)
    ensures Text(piece, a + b) == Text(piece, a) + Text(piece, b)
  {
    if a == [] {
      assert a + b == b;
    } else {
      assert (a + b)[1..] == a[1..] + b;
      TextAppend(piece, a[1..], b);
    }
  }

  function Min(a: int, b: int): int {
    if a < b then a else b
  }

  // A text printed into a buffer: as much as fits before a terminating NUL.
  ghost predicate Prints(buf: seq<char>, bufsize: nat, text: string)
    requires 1 <= bufsize <= |buf|
  {
    var k := Min(|text|, bufsize - 1);
    buf[..k] == text[..k] && buf[k] == '\0'
  }

  // nice_snprintf(buf + at, size, ...) of a given text: vsnprintf writes what fits and a NUL, or
  // nothing if the size is 0, and the result is capped to the size.
  method NiceSnprintf(buf: array<char>, at: nat, size: nat, text: string) returns (bi: nat)
    requires at + size <= buf.Length
    modifies buf
    ensures bi == Min(|text|, size)
    ensures buf[..at] == old(buf[..at]) && buf[at + size..] == old(buf[at + size..])
    ensures size >= 1 ==> Prints(buf[at..], size, text)
  {
    bi := |text|;
    if bi > size {
      bi := size;
    }
    if size > 0 {
      var k := Min(|text|, size - 1);
      forall i | 0 <= i < k {
        buf[at + i] := text[i];
      }
      buf[at + k] := '\0';
      assert buf[at..][..k] == text[..k];
    }
  }

  lemma PrintsNothing(buf: seq<char>, bufsize: nat)
    requires 1 <= bufsize <= |buf| && buf[0] == '\0'
    ensures Prints(buf, bufsize, [])
  {
  }

  lemma TextOfNone(piece: byte -> string, data: seq<byte>)
    requires |data| == 0
    ensures Text(piece, data) == []
  {
  }

  // One more piece, while there is room.
  lemma PrintsMore(before: seq<char>, after: seq<char>, bufsize: nat, text: string, piece: string)
    requires |before| == |after| && 1 <= bufsize <= |before| && |text| < bufsize
    requires Prints(before, bufsize, text)
    requires after[..|text|] == before[..|text|]
    requires Prints(after[|text|..], bufsize - |text|, piece)
    ensures Prints(after, bufsize, text + piece)
    ensures Min(|text + piece|, bufsize) == |text| + Min(|piece|, bufsize - |text|)
  {
    var k := Min(|piece|, bufsize - |text| - 1);
    assert after[..|text| + k] == after[..|text|] + after[|text|..][..k];
    assert (text + piece)[..|text| + k] == text + piece[..k];
  }

  // A text that already fills the buffer prints like any continuation of it.
  lemma PrintsSame(buf: seq<char>, bufsize: nat, text: string, more: string)
    requires 1 <= bufsize <= |buf| && |text| >= bufsize && Prints(buf, bufsize, text)
    ensures Prints(buf, bufsize, text + more)
  {
    assert (text + more)[..bufsize - 1] == text[..bufsize - 1];
  }

  /** snprintf_printable, for any size the caller states. Its first store, of a NUL, is within the
      buffer if and only if there is a buffer at all. If so it stays within the stated size, stores the
      first bufsize - 1 characters of the full escaped text and a NUL, and returns the length of the
      text capped to the size; for a size that is not positive it stores that NUL and nothing else. */
  method SnprintfPrintable(buf: array<char>, bufsize: int, data: seq<byte>, len: int)
    returns (inBounds: bool, bi: nat)
    requires bufsize <= buf.Length && len <= |data|
    modifies buf
    ensures inBounds <==> buf.Length > 0
    ensures inBounds ==> var n := if bufsize < 1 then 1 else bufsize; buf[n..] == old(buf[n..])
    ensures var text := Text(Escaped, data[..if len < 0 then 0 else len]);
      if bufsize >= 1 then Prints(buf[..], bufsize, text) && bi == Min(|text|, bufsize)
      else bi == 0 && (inBounds ==> buf[0] == '\0')
  {
    hide Text, Prints;
    inBounds, bi := buf.Length > 0, 0;
    if !inBounds {
      return;
    }
    buf[0] := '\0';
    if bufsize < 1 {
      return;
    }
    PrintsNothing(buf[..], bufsize);
    var i := 0;
    ghost var n := if len < 0 then 0 else len;
    assert Text(Escaped, data[..0]) == [] by { TextOfNone(Escaped, data[..0]); }
    while i < len && bi < bufsize
      invariant i <= n
      invariant buf[bufsize..] == old(buf[bufsize..])
      invariant Prints(buf[..], bufsize, Text(Escaped, data[..i]))
      invariant bi == Min(|Text(Escaped, data[..i])|, bufsize)
    {
      ghost var text, before := Text(Escaped, data[..i]), buf[..];
      TextOneMore(Escaped, data, i);
      var count := 0;
      if Printable(data[i]) {
        count := NiceSnprintf(buf, bi, bufsize - bi, [data[i] as char]);
      } else {
        count := NiceSnprintf(buf, bi, bufsize - bi, ['\\', 'x'] + Hex(data[i]));
      }
      assert buf[..][bi..] == buf[bi..];
      PrintsMore(before, buf[..], bufsize, text, Escaped(data[i]));
      bi := bi + count;
      i := i + 1;
    }
    if i < n {
      assert data[..n] == data[..i] + data[i..n];
      TextAppend(Escaped, data[..i], data[i..n]);
      PrintsSame(buf[..], bufsize, Text(Escaped, data[..i]), Text(Escaped, data[i..n]));
    }
  }

  /** snprintf_hex, likewise, with two digits for each byte. */
  method SnprintfHex(buf: array<char>, bufsize: int, data: seq<byte>, len: int)
    returns (inBounds: bool, bi: nat)
    requires bufsize <= buf.Length && len <= |data|
    modifies buf
    ensures inBounds <==> buf.Length > 0
    ensures inBounds ==> var n := if bufsize < 1 then 1 else bufsize; buf[n..] == old(buf[n..])
    ensures var text := Text(Hex, data[..if len < 0 then 0 else len]);
      if bufsize >= 1 then Prints(buf[..], bufsize, text) && bi == Min(|text|, bufsize)
      else bi == 0 && (inBounds ==> buf[0] == '\0')
  {
    hide Text, Prints;
    inBounds, bi := buf.Length > 0, 0;
    if !inBounds {
      return;
    }
    buf[0] := '\0';
    if bufsize < 1 {
      return;
    }
    PrintsNothing(buf[..], bufsize);
    var i := 0;
    ghost var n := if len < 0 then 0 else len;
    assert Text(Hex, data[..0]) == [] by { TextOfNone(Hex, data[..0]); }
    while i < len && bi < bufsize
      invariant i <= n
      invariant buf[bufsize..] == old(buf[bufsize..])
      invariant Prints(buf[..], bufsize, Text(Hex, data[..i]))
      invariant bi == Min(|Text(Hex, data[..i])|, bufsize)
    {
      ghost var text, before := Text(Hex, data[..i]), buf[..];
      TextOneMore(Hex, data, i);
      var count := NiceSnprintf(buf, bi, bufsize - bi, Hex(data[i]));
      assert buf[..][bi..] == buf[bi..];
      PrintsMore(before, buf[..], bufsize, text, Hex(data[i]));
      bi := bi + count;
      i := i + 1;
    }
    if i < n {
      assert data[..n] == data[..i] + data[i..n];
      TextAppend(Hex, data[..i], data[i..n]);
      PrintsSame(buf[..], bufsize, Text(Hex, data[..i]), Text(Hex, data[i..n]));
    }
  }

  lemma TextOneMore(piece: byte -> string, data: seq<byte>, i: nat)
    requires i < |data|
    ensures Text(piece, data[..i + 1]) == Text(piece, data[..i]) + piece(data[i])
  {
    assert data[..i + 1] == data[..i] + [data[i]];
    TextAppend(piece, data[..i], [data[i]]);
    assert Text(piece, [data[i]]) == piece(data[i]) + Text(piece, [data[i]][1..]) == piece(data[i]);
  }

  // The value of a hexadecimal digit.
  function DigitValue(c: char): int {
    if '0' <= c <= '9' then c as int - '0' as int
    else if 'a' <= c <= 'f' then c as int - 'a' as int + 10
    else -1
  }

  /** The two hexadecimal digits of a byte denote it, the high one first. */
  lemma HexDenotes(b: byte)
    ensures |Hex(b)| == 2 && 16 * DigitValue(Hex(b)[0]) + DigitValue(Hex(b)[1]) == b
  {
    DigitDenotes(b / 16);
    DigitDenotes(b % 16);
  }

  lemma DigitDenotes(n: nat)
    requires n < 16
    ensures DigitValue(HexDigit(n)) == n
  {
  }

  /** A byte from space to tilde is printed as itself, and any other as a backslash, an x and the two
      digits that denote it; so what is printed is always printable. */
  lemma EscapedDenotes(b: byte)
    ensures var t := Escaped(b);
      && (' ' as int <= b <= '~' as int ==> t == [b as char])
      && (!(' ' as int <= b <= '~' as int) ==>
            |t| == 4 && t[..2] == "\\x" && 16 * DigitValue(t[2]) + DigitValue(t[3]) == b)
      && forall c | c in t :: ' ' <= c <= '~'
  {
    HexDenotes(b);
    if !Printable(b) {
      var t := Escaped(b);
      assert t[2] == Hex(b)[0] && t[3] == Hex(b)[1];
      HexPrintable(b);
    }
  }

  lemma HexPrintable(b: byte)
    ensures forall c | c in Hex(b) :: ' ' <= c <= '~'
  {
    HexDenotes(b);
    assert forall c | DigitValue(c) >= 0 :: ' ' <= c <= '~';
    assert DigitValue(Hex(b)[0]) >= 0 && DigitValue(Hex(b)[1]) >= 0 by {
      DigitDenotes(b / 16);
      DigitDenotes(b % 16);
    }
  }

  /** How much room an escaped text needs: between one and four characters a byte, and all four for
      each byte if and only if none is printable. */
  lemma {:induction false} EscapedLength(data: seq<byte>)
    ensures |data| <= |Text(Escaped, data)| <= 4 * |data|
    ensures |Text(Escaped, data)| == 4 * |data| <==> forall b | b in data :: !Printable(b)
  {
    if data != [] {
      EscapedLength(data[1..]);
      assert data == [data[0]] + data[1..];
    }
  }

  /** The text that RecvTLV makes of a body that does not parse, in a buffer of four characters a byte.
      The call stays within that buffer if and only if the body is not empty; then the whole text is
      there, with its NUL, if and only if some byte is printable, and else its last character is lost. */
  method UnpackableText(value: seq<byte>) returns (inBounds: bool, tmp: array<char>)
    ensures fresh(tmp)
    ensures inBounds <==> value != []
    ensures var text := Text(Escaped, value);
      && (inBounds ==>
            ((text + ['\0'] <= tmp[..]) <==> exists b :: b in value && Printable(b)))
      && (inBounds && (forall b | b in value :: !Printable(b)) ==>
            |tmp[..]| == |text| && tmp[..] == text[..|text| - 1] + ['\0'])
  {
    tmp := new char[|value| * 4];
    var bi;
    inBounds, bi := SnprintfPrintable(tmp, |value| * 4, value, |value|);
    hide Text, Prints;
    assert value[..|value|] == value;
    if inBounds {
      TextFits(tmp[..], value);
    }
  }

  // A text of four characters a byte loses its last one to the NUL, and any shorter one is whole.
  lemma TextFits(buf: seq<char>, value: seq<byte>)
    requires value != [] && |buf| == |value| * 4 && Prints(buf, |value| * 4, Text(Escaped, value))
    ensures var text := Text(Escaped, value);
      && (text + ['\0'] <= buf <==> exists b :: b in value && Printable(b))
      && ((forall b | b in value :: !Printable(b)) ==>
            |buf| == |text| && buf == text[..|text| - 1] + ['\0'])
  {
    EscapedLength(value);
    hide Text;
    var text := Text(Escaped, value);
    if |text| == 4 * |value| {
      assert |text + ['\0']| > |buf|;
      assert buf == text[..|text| - 1] + ['\0'];
    } else {
      assert text[..|text|] == text;
      assert buf[..|text| + 1] == text + ['\0'];
    }
  }

  /** TagString: the four bytes of a tag, most significant first, escaped. With the size the callers
      use it is never cut short; other sizes are as for snprintf_printable. */
  method TagString(tag: u32, buf: array<char>, maxBuf: int) returns (inBounds: bool, bi: nat)
    requires maxBuf <= buf.Length
    modifies buf
    ensures inBounds <==> buf.Length > 0
    ensures inBounds ==> var n := if maxBuf < 1 then 1 else maxBuf; buf[n..] == old(buf[n..])
    ensures var text := Text(Escaped, Digits(tag, 4));
      && (if maxBuf >= 1 then Prints(buf[..], maxBuf, text) && bi == Min(|text|, maxBuf)
          else bi == 0 && (inBounds ==> buf[0] == '\0'))
      && (maxBuf >= MAX_TAG_STRING ==> bi == |text| < maxBuf && buf[..bi] == text && buf[bi] == '\0')
  {
    inBounds, bi := SnprintfPrintable(buf, maxBuf, Digits(tag, 4), 4);
    assert Digits(tag, 4)[..4] == Digits(tag, 4);
    EscapedLength(Digits(tag, 4));
  }

  // ---------- reading tag strings back ----------

  lemma HexIsInjective(a: byte, b: byte)
    ensures Hex(a) == Hex(b) ==> a == b
  {
    assert forall m, n | 0 <= m < 16 && 0 <= n < 16 && HexDigit(m) == HexDigit(n) :: m == n;
    if Hex(a) == Hex(b) {
      assert Hex(a)[0] == Hex(b)[0] && Hex(a)[1] == Hex(b)[1];
      assert a / 16 == b / 16 && a % 16 == b % 16;
    }
  }

  // Text that does not start with a backslash starts with a printable byte.
  lemma StartsPrintable(data: seq<byte>)
    requires data != [] && Text(Escaped, data)[0] != '\\'
    ensures Printable(data[0]) && Text(Escaped, data)[1..] == Text(Escaped, data[1..])
  {
  }

  // As many bytes as the text has characters before any backslash are printable.
  lemma {:induction false} PlainText(data: seq<byte>, n: nat)
    requires |data| <= n <= |Text(Escaped, data)|
    requires forall i | 0 <= i < n :: Text(Escaped, data)[i] != '\\'
    ensures forall c | c in data :: Printable(c)
  {
    if data != [] {
      StartsPrintable(data);
      var t := Text(Escaped, data);
      assert forall i | 0 <= i < n - 1 :: t[1..][i] == t[i + 1];
      PlainText(data[1..], n - 1);
    }
  }

  // A printable backslash can be taken for an escape only if all of up to four bytes are printable.
  lemma FakeEscape(data: seq<byte>, b: byte, rest: string)
    requires 0 < |data| <= 4 && Printable(data[0])
    requires Text(Escaped, data) == ['\\', 'x'] + Hex(b) + rest
    ensures forall c | c in data :: Printable(c)
  {
    var t := Text(Escaped, data[1..]);
    assert t == Text(Escaped, data)[1..];
    hide Text;
    assert t[0] == 'x' && t[1] == Hex(b)[0] && t[2] == Hex(b)[1];
    PlainText(data[1..], 3);
  }

  lemma MixedStarts(a: seq<byte>, b: seq<byte>)
    requires 0 < |a| == |b| <= 4 && Text(Escaped, a) == Text(Escaped, b)
    requires Printable(a[0])
    ensures Printable(b[0])
  {
    if !Printable(b[0]) {
      assert Text(Escaped, b) == ['\\', 'x'] + Hex(b[0]) + Text(Escaped, b[1..]);
      FakeEscape(a, b[0], Text(Escaped, b[1..]));
      AllPrintableLength(a);
      EscapedLength(b[1..]);
    }
  }

  lemma {:induction false} AllPrintableLength(a: seq<byte>)
    requires forall c | c in a :: Printable(c)
    ensures |Text(Escaped, a)| == |a|
  {
    if a != [] {
      AllPrintableLength(a[1..]);
    }
  }

  /** Up to four bytes, escaping loses nothing, although a backslash is not escaped itself. */
  lemma {:induction false} EscapeIsInjectiveUpToFour(a: seq<byte>, b: seq<byte>)
    requires |a| == |b| <= 4 && Text(Escaped, a) == Text(Escaped, b)
    ensures a == b
  {
    if a != [] {
      if Printable(a[0]) {
        MixedStarts(a, b);
      } else if Printable(b[0]) {
        MixedStarts(b, a);
      }
      var p, q := Escaped(a[0]), Escaped(b[0]);
      var t := Text(Escaped, a);
      assert t[..|p|] == p && t[..|q|] == q && t[|p|..] == Text(Escaped, a[1..]);
      assert t[|q|..] == Text(Escaped, b[1..]);
      if !Printable(a[0]) {
        assert p[2..] == Hex(a[0]) && q[2..] == Hex(b[0]);
        HexIsInjective(a[0], b[0]);
      } else {
        assert p[0] == q[0];
      }
      EscapeIsInjectiveUpToFour(a[1..], b[1..]);
      assert a == [a[0]] + a[1..] && b == [b[0]] + b[1..];
    }
  }

  /** Two different tags never print alike. */
  lemma TagStringsDiffer(t1: u32, t2: u32)
    requires t1 != t2
    ensures Text(Escaped, Digits(t1, 4)) != Text(Escaped, Digits(t2, 4))
  {
    if Text(Escaped, Digits(t1, 4)) == Text(Escaped, Digits(t2, 4)) {
      EscapeIsInjectiveUpToFour(Digits(t1, 4), Digits(t2, 4));
      Value32OfDigits(t1);
      Value32OfDigits(t2);
      assert false;
    }
  }

  /** From five bytes on, different data of one length can print alike. */
  lemma EscapeIsNotInjectiveFromFive(more: seq<byte>)
    ensures var quoted: seq<byte> := [0x5c, 0x78, 0x30, 0x30];
      var a, b := [0] + quoted + more, quoted + [0] + more;
      |a| == |b| && a != b && Text(Escaped, a) == Text(Escaped, b)
  {
    var quoted: seq<byte> := [0x5c, 0x78, 0x30, 0x30];
    var a, b := [0] + quoted + more, quoted + [0] + more;
    assert a[0] == 0 && b[0] == 0x5c;
    TextOfQuoted(quoted);
    TextOfOne(0);
    TextAppend(Escaped, [0], quoted);
    TextAppend(Escaped, quoted, [0]);
    TextAppend(Escaped, [0] + quoted, more);
    TextAppend(Escaped, quoted + [0], more);
  }

  lemma TextOfOne(b: byte)
    ensures Text(Escaped, [b]) == Escaped(b)
  {
    assert Text(Escaped, [b]) == Escaped(b) + Text(Escaped, []);
  }

  lemma TextOfQuoted(quoted: seq<byte>)
    requires quoted == [0x5c, 0x78, 0x30, 0x30]
    ensures Text(Escaped, quoted) == Escaped(0)
  {
    assert quoted[1..] == [0x78, 0x30, 0x30] && quoted[1..][1..] == [0x30, 0x30];
    assert quoted[1..][1..][1..] == [0x30];
    TextOfOne(0x30);
    assert Text(Escaped, [0x30, 0x30]) == Escaped(0x30) + Text(Escaped, [0x30]);
    assert Text(Escaped, [0x78, 0x30, 0x30]) == Escaped(0x78) + Text(Escaped, [0x30, 0x30]);
  }
}
