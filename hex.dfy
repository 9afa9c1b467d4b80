/** The readable dump `to_hex_string` makes of a byte buffer: two upper-case
    hex digits and a space per byte, a `;`, then one character per byte in
    which every byte that reads as a `char` below 32 is shown as `.`. */
module Hex {
  import opened Bytes

  /** The upper-case hex digit of `%X` for a value below 16. */
  function HexDigit(n: int): char
    requires 0 <= n < 16
  {
    if n < 10 then ('0' as int + n) as char else ('A' as int + n - 10) as char
  }

  /** `%02X ` (and `{0:02X} `) of one byte. */
  function HexByte(b: byte): string
  {
    [HexDigit(b / 16), HexDigit(b % 16), ' ']
  }

  /** The text-column character of a byte. Through a signed `char`, bytes
      0x80..0xFF are negative, so they are shown as `.` as well. */
  function Shown(b: byte): char
  {
    if SignedChar(b) < 32 then '.' else b as char
  }

  function HexColumn(d: seq<byte>): string
  {
    if d == [] then [] else HexColumn(d[..|d| - 1]) + HexByte(d[|d| - 1])
  }

  function TextColumn(d: seq<byte>): string
  {
    if d == [] then [] else TextColumn(d[..|d| - 1]) + [Shown(d[|d| - 1])]
  }

  function HexDump(d: seq<byte>): string
  {
    HexColumn(d) + [';'] + TextColumn(d)
  }

  /** Every text-column character is printable ASCII (32..126) or DEL, and
      a byte is shown as itself exactly when it is 32..127. */
  lemma ShownIsPrintable(b: byte)
    ensures 32 <= Shown(b) as int < 128
    ensures Shown(b) == b as char <==> 32 <= b < 128
  {
  }

  lemma {:induction false} HexColumnAt(d: seq<byte>, i: nat)
    requires i < |d|
    ensures |HexColumn(d)| == 3 * |d|
    ensures HexColumn(d)[3 * i] == HexDigit(d[i] / 16)
    ensures HexColumn(d)[3 * i + 1] == HexDigit(d[i] % 16)
    ensures HexColumn(d)[3 * i + 2] == ' '
  {
    var init := d[..|d| - 1];
    HexColumnLength(init);
    if i < |d| - 1 {
      HexColumnAt(init, i);
    }
  }

  lemma {:induction false} HexColumnLength(d: seq<byte>)
    ensures |HexColumn(d)| == 3 * |d|
  {
    if d != [] {
      HexColumnLength(d[..|d| - 1]);
    }
  }

  lemma {:induction false} TextColumnAt(d: seq<byte>, i: nat)
    requires i < |d|
    ensures |TextColumn(d)| == |d|
    ensures TextColumn(d)[i] == Shown(d[i])
  {
    var init := d[..|d| - 1];
    TextColumnLength(init);
    if i < |d| - 1 {
      TextColumnAt(init, i);
    }
  }

  lemma {:induction false} TextColumnLength(d: seq<byte>)
    ensures |TextColumn(d)| == |d|
  {
    if d != [] {
      TextColumnLength(d[..|d| - 1]);
    }
  }

  /** The layout of the dump: 3 characters per byte, the `;` right after
      them, then one character per byte; 4n+1 characters for n bytes. */
  lemma HexDumpLayout(d: seq<byte>)
    ensures |HexDump(d)| == 4 * |d| + 1
    ensures HexDump(d)[3 * |d|] == ';'
    ensures forall i :: 0 <= i < |d| ==>
      && HexDump(d)[3 * i] == HexDigit(d[i] / 16)
      && HexDump(d)[3 * i + 1] == HexDigit(d[i] % 16)
      && HexDump(d)[3 * i + 2] == ' '
      && HexDump(d)[3 * |d| + 1 + i] == Shown(d[i])
  {
    HexColumnLength(d);
    TextColumnLength(d);
    forall i | 0 <= i < |d|
      ensures HexDump(d)[3 * i] == HexDigit(d[i] / 16)
      ensures HexDump(d)[3 * i + 1] == HexDigit(d[i] % 16)
      ensures HexDump(d)[3 * i + 2] == ' '
      ensures HexDump(d)[3 * |d| + 1 + i] == Shown(d[i])
    {
      HexColumnAt(d, i);
      TextColumnAt(d, i);
    }
  }

  /** The dump holds no NUL: hex digits, spaces, `;` and shown characters
      are all printable, so a C string of it ends only at its terminator. */
  lemma HexDumpHasNoNul(d: seq<byte>)
    ensures forall k :: 0 <= k < |HexDump(d)| ==> HexDump(d)[k] != '\0'
  {
    HexDumpLayout(d);
    var n := |d|;
    forall k | 0 <= k < |HexDump(d)|
      ensures HexDump(d)[k] != '\0'
    {
      if k > 3 * n {
        ShownIsPrintable(d[k - 3 * n - 1]);
        assert HexDump(d)[3 * n + 1 + (k - 3 * n - 1)] == Shown(d[k - 3 * n - 1]);
      } else if k < 3 * n {
        var i := k / 3;
        assert k == 3 * i || k == 3 * i + 1 || k == 3 * i + 2;
      }
    }
  }

  /** The layout determines the dump: a string laid out as `HexDumpLayout`
      describes is `HexDump(d)`. */
  lemma HexDumpFromLayout(d: seq<byte>, s: string)
    requires |s| == 4 * |d| + 1 && s[3 * |d|] == ';'
    requires forall i :: 0 <= i < |d| ==>
      && s[3 * i] == HexDigit(d[i] / 16)
      && s[3 * i + 1] == HexDigit(d[i] % 16)
      && s[3 * i + 2] == ' '
    requires forall i :: 0 <= i < |d| ==> s[3 * |d| + 1 + i] == Shown(d[i])
    ensures s == HexDump(d)
  {
    HexColumnLength(d);
    TextColumnLength(d);
    var t := HexDump(d);
    forall k | 0 <= k < |s|
      ensures s[k] == t[k]
    {
      if k > 3 * |d| {
        var i := k - 3 * |d| - 1;
        TextColumnAt(d, i);
        assert t[k] == TextColumn(d)[i];
        assert s[3 * |d| + 1 + i] == Shown(d[i]);
      } else if k < 3 * |d| {
        var i := k / 3;
        HexColumnAt(d, i);
        assert t[k] == HexColumn(d)[k];
        assert s[3 * i] == HexDigit(d[i] / 16);
        assert k == 3 * i || k == 3 * i + 1 || k == 3 * i + 2;
      }
    }
  }

  /** The value of one hex digit, or -1 for any other character. */
  function DigitValue(c: char): int
  {
    if '0' <= c <= '9' then c as int - '0' as int
    else if 'A' <= c <= 'F' then c as int - 'A' as int + 10
    else -1
  }

  /** Reads the hex column back: one byte per three characters. */
  function ParseHexColumn(s: string): seq<int>
  {
    if |s| < 3 then []
    else ParseHexColumn(s[..|s| - 3]) + [16 * DigitValue(s[|s| - 3]) + DigitValue(s[|s| - 2])]
  }

  lemma HexDigitValue(n: int)
    requires 0 <= n < 16
    ensures DigitValue(HexDigit(n)) == n
  {
  }

  /** The hex column loses nothing: the bytes can be read back from it. */
  lemma {:induction false} HexColumnRoundTrip(d: seq<byte>)
    ensures ParseHexColumn(HexColumn(d)) == d
  {
    if d != [] {
      var init, last := d[..|d| - 1], d[|d| - 1];
      HexColumnLength(init);
      HexColumnRoundTrip(init);
      var s := HexColumn(d);
      assert s[..|s| - 3] == HexColumn(init);
      HexDigitValue(last / 16);
      HexDigitValue(last % 16);
      assert d == init + [last];
    }
  }
}
