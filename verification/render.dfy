/** `printLine` (ByteRead_debug.cpp): one line of the hex dump. The line is
    the text `printf` would write, as a string. */
module Render {
  import opened Bytes

  /** Bytes per dump line. */
  const LINESIZE: int := 16
  /** The digits `%02X` writes. */
  const HEX_DIGITS: string := "0123456789ABCDEF"
  /** Where the tab sits in a line: after sixteen three-character groups. */
  const TAB_COLUMN: int := 3 * LINESIZE

  function HexDigit(d: int): char
    requires 0 <= d < 16
  {
    HEX_DIGITS[d]
  }

  /** `printf("%02X ", b)`: two upper-case hex digits and a space. */
  function HexGroup(b: uint8): string
  {
    [HexDigit(b / 16), HexDigit(b % 16), ' ']
  }

  /** The ASCII column's character for a byte: the byte itself when it is
      printable (32 to 126), a space otherwise. */
  function AsciiChar(b: uint8): char
  {
    if b < 32 || b > 126 then ' ' else b as char
  }

  /** The hex column for `bytes`, one three-character group per byte. */
  function HexColumn(bytes: seq<uint8>): (s: string)
    ensures |s| == 3 * |bytes|
  {
    if |bytes| == 0 then "" else HexGroup(bytes[0]) + HexColumn(bytes[1..])
  }

  /** Group `i` of the hex column is the group of byte `i`. */
  lemma {:induction false} HexColumnGroups(bytes: seq<uint8>)
    ensures forall i :: 0 <= i < |bytes| ==> HexColumn(bytes)[3 * i..3 * i + 3] == HexGroup(bytes[i])
    decreases |bytes|
  {
    if |bytes| > 0 {
      var rest := HexColumn(bytes[1..]);
      var s := HexColumn(bytes);
      HexColumnGroups(bytes[1..]);
      forall i | 1 <= i < |bytes|
        ensures s[3 * i..3 * i + 3] == HexGroup(bytes[i])
      {
        SliceOfSuffix(HexGroup(bytes[0]), rest, 3 * i, 3 * i + 3);
        assert bytes[1..][i - 1] == bytes[i];
      }
      SliceOfPrefix(HexGroup(bytes[0]), rest, 0, 3);
    }
  }

  /** The hex column holds neither a tab nor a newline. */
  lemma {:induction false} HexColumnPlain(bytes: seq<uint8>)
    ensures forall j :: 0 <= j < 3 * |bytes| ==> HexColumn(bytes)[j] != '\t' && HexColumn(bytes)[j] != '\n'
    decreases |bytes|
  {
    if |bytes| > 0 {
      var s := HexColumn(bytes);
      var group := HexGroup(bytes[0]);
      var rest := HexColumn(bytes[1..]);
      HexColumnPlain(bytes[1..]);
      assert group[0] != '\t' && group[0] != '\n' by { HexDigitValue(bytes[0] / 16); }
      assert group[1] != '\t' && group[1] != '\n' by { HexDigitValue(bytes[0] % 16); }
      forall j | 0 <= j < |s|
        ensures s[j] != '\t' && s[j] != '\n'
      {
        if j < 3 {
          assert s[j] == group[j];
        } else {
          assert s[j] == rest[j - 3];
        }
      }
    }
  }

  /** `count` groups of three spaces. */
  function Padding(count: nat): (s: string)
    ensures |s| == 3 * count
    ensures forall j :: 0 <= j < |s| ==> s[j] == ' '
  {
    seq(3 * count, _ => ' ')
  }

  /** The ASCII column for `bytes`, one character per byte. */
  function AsciiColumn(bytes: seq<uint8>): (s: string)
    ensures |s| == |bytes|
    ensures forall i :: 0 <= i < |bytes| ==> s[i] == AsciiChar(bytes[i])
  {
    seq(|bytes|, i requires 0 <= i < |bytes| => AsciiChar(bytes[i]))
  }

  /** What follows the hex column: the tab, the ASCII column and the
      newline. */
  function AsciiTail(bytes: seq<uint8>): (s: string)
    ensures |s| == |bytes| + 2
  {
    "\t" + AsciiColumn(bytes) + "\n"
  }

  /** The tail opens with the tab and closes with the newline; between them
      is each byte's ASCII character. */
  lemma AsciiTailLayout(bytes: seq<uint8>)
    ensures var s := AsciiTail(bytes);
            && s[0] == '\t' && s[|s| - 1] == '\n'
            && (forall i :: 0 <= i < |bytes| ==> s[1 + i] == AsciiChar(bytes[i]))
  {
  }

  /** The tab and the newline occur nowhere else in the tail: the ASCII
      column holds only printable characters and spaces. */
  lemma AsciiTailSeparators(bytes: seq<uint8>)
    ensures var s := AsciiTail(bytes);
            forall j :: 0 < j < |s| - 1 ==> s[j] != '\t' && s[j] != '\n'
  {
    var s := AsciiTail(bytes);
    forall j | 0 < j < |s| - 1
      ensures s[j] != '\t' && s[j] != '\n'
    {
      assert s[j] == AsciiColumn(bytes)[j - 1];
    }
  }

  /** printLine(buffer, size), lines 35-58: the hex groups of the first
      `size` bytes, three spaces for each missing byte up to LINESIZE, a
      tab, the ASCII column and a newline. A negative `size` prints no byte
      and `16 - size` padding groups. */
  function PrintLine(buffer: seq<uint8>, size: int): (line: string)
    requires size <= |buffer|
    ensures var n := if size < 0 then 0 else size;
            var pad := if size < LINESIZE then LINESIZE - size else 0;
            |line| == 3 * n + 3 * pad + 2 + n
  {
    var n := if size < 0 then 0 else size;
    var pad := if size != LINESIZE && size < LINESIZE then LINESIZE - size else 0;
    HexColumn(buffer[..n]) + Padding(pad) + AsciiTail(buffer[..n])
  }

  /** The frame of a line of 0 to 16 bytes: `50 + size` characters, the tab
      at column 48, the ASCII column after it and the newline last. */
  lemma PrintLineLayout(buffer: seq<uint8>, size: int)
    requires 0 <= size <= LINESIZE && size <= |buffer|
    ensures var line := PrintLine(buffer, size);
            && |line| == 50 + size
            && line[TAB_COLUMN] == '\t'
            && line[|line| - 1] == '\n'
            && (forall i :: 0 <= i < size ==> line[TAB_COLUMN + 1 + i] == AsciiChar(buffer[i]))
  {
    var head := HexColumn(buffer[..size]) + Padding(LINESIZE - size);
    var tail := AsciiTail(buffer[..size]);
    AsciiTailLayout(buffer[..size]);
    var line := PrintLine(buffer, size);
    assert line == head + tail;
    assert |head| == TAB_COLUMN;
    forall i | 0 <= i < size
      ensures line[TAB_COLUMN + 1 + i] == AsciiChar(buffer[i])
    {
      TailAt(head, tail, line, 1 + i);
      assert buffer[..size][i] == buffer[i];
    }
  }

  lemma TailAt<T>(head: seq<T>, tail: seq<T>, line: seq<T>, k: int)
    requires line == head + tail && 0 <= k < |tail|
    ensures line[|head| + k] == tail[k]
  {
  }

  /** The hex column of a line of 0 to 16 bytes: group `i` is the byte's two
      digits and a space for each `i < size`. */
  lemma PrintLineGroups(buffer: seq<uint8>, size: int)
    requires 0 <= size <= LINESIZE && size <= |buffer|
    ensures var line := PrintLine(buffer, size);
            forall i :: 0 <= i < size ==> line[3 * i..3 * i + 3] == HexGroup(buffer[i])
  {
    var hex := HexColumn(buffer[..size]);
    var spaces := Padding(LINESIZE - size);
    var tail := AsciiTail(buffer[..size]);
    HexColumnGroups(buffer[..size]);
    var line := PrintLine(buffer, size);
    assert line == (hex + spaces) + tail;
    forall i | 0 <= i < size
      ensures line[3 * i..3 * i + 3] == HexGroup(buffer[i])
    {
      SliceOfPrefix(hex + spaces, tail, 3 * i, 3 * i + 3);
      SliceOfPrefix(hex, spaces, 3 * i, 3 * i + 3);
      assert buffer[..size][i] == buffer[i];
    }
  }

  /** After the bytes of a short line come padding groups of three spaces up
      to LINESIZE groups. */
  lemma PrintLinePadding(buffer: seq<uint8>, size: int)
    requires 0 <= size <= LINESIZE && size <= |buffer|
    ensures var line := PrintLine(buffer, size);
            forall i :: size <= i < LINESIZE ==> line[3 * i..3 * i + 3] == "   "
  {
    var hex := HexColumn(buffer[..size]);
    var spaces := Padding(LINESIZE - size);
    var tail := AsciiTail(buffer[..size]);
    var line := PrintLine(buffer, size);
    assert line == (hex + spaces) + tail;
    forall i | size <= i < LINESIZE
      ensures line[3 * i..3 * i + 3] == "   "
    {
      SliceOfPrefix(hex + spaces, tail, 3 * i, 3 * i + 3);
      SliceOfSuffix(hex, spaces, 3 * i, 3 * i + 3);
    }
  }

  lemma SliceOfPrefix<T>(a: seq<T>, b: seq<T>, lo: int, hi: int)
    requires 0 <= lo <= hi <= |a|
    ensures (a + b)[lo..hi] == a[lo..hi]
  {
  }

  lemma SliceOfSuffix<T>(a: seq<T>, b: seq<T>, lo: int, hi: int)
    requires |a| <= lo <= hi <= |a| + |b|
    ensures (a + b)[lo..hi] == b[lo - |a|..hi - |a|]
  {
  }

  /** A line of a non-negative `size` holds exactly one tab, right after
      the padded hex column, and exactly one newline, at its end. */
  lemma PrintLineSeparators(buffer: seq<uint8>, size: int)
    requires 0 <= size <= |buffer|
    ensures var line := PrintLine(buffer, size);
            var tab := 3 * size + 3 * (if size < LINESIZE then LINESIZE - size else 0);
            forall j :: 0 <= j < |line| ==>
              (line[j] == '\t' <==> j == tab) && (line[j] == '\n' <==> j == |line| - 1)
  {
    var head := HexColumn(buffer[..size]) + Padding(if size < LINESIZE then LINESIZE - size else 0);
    var tail := AsciiTail(buffer[..size]);
    HexColumnPlain(buffer[..size]);
    AsciiTailLayout(buffer[..size]);
    AsciiTailSeparators(buffer[..size]);
    assert PrintLine(buffer, size) == head + tail;
    assert forall j :: 0 <= j < |head| ==> head[j] != '\t' && head[j] != '\n';
  }

  /** A printed line holds one newline. */
  lemma PrintLineNewlines(buffer: seq<uint8>, size: int)
    requires 0 <= size <= |buffer|
    ensures multiset(PrintLine(buffer, size))['\n'] == 1
  {
    var head := HexColumn(buffer[..size]) + Padding(if size < LINESIZE then LINESIZE - size else 0);
    var tail := AsciiTail(buffer[..size]);
    var middle := tail[..|tail| - 1];
    HexColumnPlain(buffer[..size]);
    AsciiTailLayout(buffer[..size]);
    AsciiTailSeparators(buffer[..size]);
    assert tail == middle + ['\n'];
    assert PrintLine(buffer, size) == head + tail;
    assert '\n' !in head;
    assert forall j :: 0 <= j < |middle| ==> middle[j] == tail[j];
    SingleNewline(head, middle);
  }

  lemma SingleNewline(head: string, middle: string)
    requires '\n' !in head && '\n' !in middle
    ensures multiset(head + (middle + ['\n']))['\n'] == 1
  {
    assert multiset(head + (middle + ['\n'])) == multiset(head) + multiset(middle) + multiset(['\n']);
  }

  /** The value of a digit `%02X` writes, if `c` is one. */
  function HexValue(c: char): Option<int>
  {
    if '0' <= c <= '9' then Some(c as int - '0' as int)
    else if 'A' <= c <= 'F' then Some(c as int - 'A' as int + 10)
    else None
  }

  /** Reads `n` hex groups ("XX ") from the front of `s`. */
  function ParseGroups(s: string, n: nat): Option<seq<uint8>>
    decreases n
  {
    if n == 0 then Some([])
    else if |s| < 3 || s[2] != ' ' then None
    else
      match (HexValue(s[0]), HexValue(s[1]))
      case (Some(hi), Some(lo)) =>
        (match ParseGroups(s[3..], n - 1)
         case Some(rest) => Some([hi * 16 + lo] + rest)
         case None => None)
      case _ => None
  }

  /** Reads back the bytes of a dump line from its hex column; a line holding
      `n` bytes is `50 + n` characters long. */
  function ParseLine(line: string): Option<seq<uint8>>
  {
    if |line| < 50 || |line| > 50 + LINESIZE || line[TAB_COLUMN] != '\t' then None
    else ParseGroups(line, |line| - 50)
  }

  lemma HexDigitValue(d: int)
    requires 0 <= d < 16
    ensures HexValue(HexDigit(d)) == Some(d)
  {
    assert HEX_DIGITS == ['0', '1', '2', '3', '4', '5', '6', '7', '8', '9', 'A', 'B', 'C', 'D', 'E', 'F'];
  }

  /** A group rendered from `b` parses back to `b`. */
  lemma ParseGroup(s: string, n: nat, b: uint8)
    requires n > 0 && |s| >= 3 && s[..3] == HexGroup(b)
    ensures ParseGroups(s[3..], n - 1).Some? ==>
              ParseGroups(s, n) == Some([b] + ParseGroups(s[3..], n - 1).value)
  {
    HexDigitValue(b / 16);
    HexDigitValue(b % 16);
    assert s[0] == HexDigit(b / 16) && s[1] == HexDigit(b % 16) && s[2] == ' ';
  }

  lemma {:induction false} ParseHexColumn(bytes: seq<uint8>, tail: string)
    ensures ParseGroups(HexColumn(bytes) + tail, |bytes|) == Some(bytes)
    decreases |bytes|
  {
    if |bytes| > 0 {
      var hex := HexColumn(bytes);
      var s := hex + tail;
      assert s[..3] == hex[0..3];
      assert s[3..] == HexColumn(bytes[1..]) + tail;
      ParseHexColumn(bytes[1..], tail);
      ParseGroup(s, |bytes|, bytes[0]);
      assert bytes == [bytes[0]] + bytes[1..];
    }
  }

  /** Round trip: the hex column of a rendered line gives back the bytes it
      was rendered from. */
  lemma ParsePrintedLine(buffer: seq<uint8>, size: int)
    requires 0 <= size <= LINESIZE && size <= |buffer|
    ensures ParseLine(PrintLine(buffer, size)) == Some(buffer[..size])
  {
    var line := PrintLine(buffer, size);
    var hex := HexColumn(buffer[..size]);
    PrintLineLayout(buffer, size);
    assert line == hex + line[|hex|..];
    ParseHexColumn(buffer[..size], line[|hex|..]);
  }
}
