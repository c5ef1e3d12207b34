/** `achr` and `hex_dump` of `support.py`: the rendering of received and
    echoed bytes as rows of offset, hexadecimal column and ASCII column. */
module HexDump {
  import opened Checksum
  import opened Formatting

  /** Bytes per row. */
  const RowBytes: nat := 16

  /** Width the hexadecimal column is left-justified to. */
  const HexColumnWidth: nat := 56

  /** `achr`: the byte as a character when it is displayable ASCII
      (strictly between 32 and 126), '.' otherwise. Space and '~' are not
      displayable. */
  function Achr(n: byte): (c: char)
    ensures 32 < c as int < 126
    ensures c as int == n <==> 32 < n < 126
    ensures c as int != n ==> c == '.'
  {
    if 32 < n < 126 then n as char else '.'
  }

  /** `'%02X ' % x`: two upper-case digits and a separating space. */
  function HexField(x: byte): (f: string)
    ensures |f| == 3 && f[2] == ' '
    ensures IsDigit(f[0], 16) && IsDigit(f[1], 16)
  {
    var n := x;
    DigitRoundTrip(n / 16, 16);
    DigitRoundTrip(n % 16, 16);
    [DigitChar(n / 16), DigitChar(n % 16), ' ']
  }

  /** The two digits of a field are `'%02X' % x`. */
  lemma HexFieldIsHex(x: byte)
    ensures HexField(x)[..2] == Hex(x, 2)
  {
    var n := x;
    if n < 16 {
      assert Digits(n, 16) == [DigitChar(n)];
      assert Hex(n, 2) == ['0', DigitChar(n)];
    } else {
      assert Digits(n / 16, 16) == [DigitChar(n / 16)];
    }
  }

  /** The byte fields of a row, one after the other, each two hex digits
      and a space. */
  function HexFields(row: seq<byte>): (s: string)
    ensures |s| == 3 * |row|
  {
    if |row| == 0 then "" else HexField(row[0]) + HexFields(row[1..])
  }

  /** Leading spaces removed. */
  function TrimLeft(s: string): (r: string)
    ensures |r| <= |s| && r == s[|s| - |r|..]
    ensures |r| > 0 ==> r[0] != ' '
  {
    if |s| > 0 && s[0] == ' ' then TrimLeft(s[1..]) else s
  }

  /** Trailing spaces removed. */
  function TrimRight(s: string): (r: string)
    ensures |r| <= |s| && r == s[..|r|]
    ensures |r| > 0 ==> r[|r| - 1] != ' '
  {
    if |s| > 0 && s[|s| - 1] == ' ' then TrimRight(s[..|s| - 1]) else s
  }

  /** `str.strip()` on the hexadecimal column. The column holds only
      digits and spaces, so removing spaces at both ends is all that
      Python's whitespace stripping can do to it. */
  function Strip(s: string): string
  {
    TrimLeft(TrimRight(s))
  }

  /** `str.ljust(width)`: padded on the right with spaces to `width`. */
  function LJust(s: string, width: nat): (r: string)
    ensures |r| == if |s| < width then width else |s|
    ensures r[..|s|] == s
    ensures forall i :: |s| <= i < |r| ==> r[i] == ' '
  {
    if |s| < width then s + Repeat(' ', width - |s|) else s
  }

  /** The printable rendering of each byte of a row, in order. */
  function AsciiColumn(row: seq<byte>): (s: string)
    ensures |s| == |row|
    ensures forall j :: 0 <= j < |row| ==> s[j] == Achr(row[j])
  {
    seq(|row|, j requires 0 <= j < |row| => Achr(row[j]))
  }

  /** One row of the dump: the offset in at least four hex digits, two
      spaces, the stripped and left-justified hexadecimal column, the
      ASCII column and a newline. */
  function RowText(offset: nat, row: seq<byte>): string
  {
    Hex(offset, 4) + "  " + HexColumn(row) + AsciiColumn(row) + "\n"
  }

  /** The hexadecimal column of a row, position by position: the fields'
      characters up to the last field's digits, spaces after that up to
      56 characters. `HexColumnIsJustified` shows this is the joined
      fields, stripped and left-justified, as `hex_dump` builds it. */
  function HexColumn(row: seq<byte>): (col: string)
    ensures |col| == if 3 * |row| - 1 < HexColumnWidth then HexColumnWidth else 3 * |row| - 1
  {
    var n := 3 * |row| - 1;
    seq(if n < HexColumnWidth then HexColumnWidth else n,
        i requires 0 <= i => if i < n && i % 3 != 2 then HexField(row[i / 3])[i % 3] else ' ')
  }

  /** Rows of `b` starting at running offset `cnt`. */
  function DumpFrom(b: seq<byte>, cnt: nat): string
    decreases |b|
  {
    if |b| == 0 then ""
    else
      var k := if |b| < RowBytes then |b| else RowBytes;
      RowText(cnt, b[..k]) + DumpFrom(b[k..], cnt + RowBytes)
  }

  /** `hex_dump`: the offset restarts at 0 on every call. */
  function Dump(b: seq<byte>): (s: string)
    ensures s == "" <==> |b| == 0
  {
    var s := DumpFrom(b, 0);
    assert |b| > 0 ==> |s| > 0 by {
      if |b| > 0 {
        var k := if |b| < RowBytes then |b| else RowBytes;
        assert |RowText(0, b[..k])| > 0;
      }
    }
    s
  }

  // ---------------------------------------------------------------------
  // Row structure of the whole dump

  /** Number of rows for `n` bytes: `ceil(n / 16)`. */
  function NumRows(n: nat): nat
  {
    (n + RowBytes - 1) / RowBytes
  }

  /** Row `k` covers bytes `[16k, 16k + 16)`, clipped to the input. */
  function Chunk(b: seq<byte>, k: nat): (c: seq<byte>)
    requires k < NumRows(|b|)
    ensures 1 <= |c| <= RowBytes
  {
    var hi := if RowBytes * k + RowBytes < |b| then RowBytes * k + RowBytes else |b|;
    b[RowBytes * k..hi]
  }

  /** Concatenation of strings, first to last. */
  function Concat(ss: seq<string>): string
  {
    if |ss| == 0 then "" else ss[0] + Concat(ss[1..])
  }

  /** The rows of the dump started at `cnt`: row `k` renders chunk `k`
      at offset `cnt + 16k`. */
  function Rows(b: seq<byte>, cnt: nat): (rs: seq<string>)
    ensures |rs| == NumRows(|b|)
  {
    seq(NumRows(|b|), k requires 0 <= k < NumRows(|b|) => RowText(cnt + RowBytes * k, Chunk(b, k)))
  }

  /** The dump is its rows, in order, each covering the next 16 bytes,
      with offsets `cnt`, `cnt + 16`, .... */
  lemma {:induction false} DumpFromIsRows(b: seq<byte>, cnt: nat)
    ensures DumpFrom(b, cnt) == Concat(Rows(b, cnt))
    decreases |b|
  {
    if |b| > 0 {
      var k := if |b| < RowBytes then |b| else RowBytes;
      DumpFromIsRows(b[k..], cnt + RowBytes);
      RowsSplit(b, cnt);
      var rs := Rows(b, cnt);
      assert Concat(rs) == rs[0] + Concat(rs[1..]);
    }
  }

  /** The first row renders the first 16 bytes; the others are the rows
      of the rest, 16 further on. */
  lemma RowsSplit(b: seq<byte>, cnt: nat)
    requires |b| > 0
    ensures var k := if |b| < RowBytes then |b| else RowBytes;
      && Rows(b, cnt)[0] == RowText(cnt, b[..k])
      && Rows(b, cnt)[1..] == Rows(b[k..], cnt + RowBytes)
  {
    var k := if |b| < RowBytes then |b| else RowBytes;
    var rest := b[k..];
    var rs, rs' := Rows(b, cnt), Rows(rest, cnt + RowBytes);
    assert NumRows(|b|) == 1 + NumRows(|rest|);
    assert rs[0] == RowText(cnt, b[..k]) by {
      assert Chunk(b, 0) == b[..k];
    }
    forall i | 0 <= i < |rs'|
      ensures rs[1..][i] == rs'[i]
    {
      RowsShift(b, cnt, i);
    }
  }

  lemma RowsShift(b: seq<byte>, cnt: nat, i: nat)
    requires |b| > RowBytes && i + 1 < NumRows(|b|)
    ensures Rows(b, cnt)[i + 1] == Rows(b[RowBytes..], cnt + RowBytes)[i]
  {
    ChunkShift(b, i);
  }

  lemma ChunkShift(b: seq<byte>, i: nat)
    requires |b| > RowBytes && i + 1 < NumRows(|b|)
    ensures i < NumRows(|b| - RowBytes)
    ensures Chunk(b, i + 1) == Chunk(b[RowBytes..], i)
  {
  }

  /** `hex_dump(b)` is exactly `ceil(|b| / 16)` rows; row `k` renders bytes
      `[16k, 16k + 16)` at offset `16k`. */
  lemma DumpIsRows(b: seq<byte>)
    ensures Dump(b) == Concat(Rows(b, 0))
    ensures forall k :: 0 <= k < NumRows(|b|) ==> Rows(b, 0)[k] == RowText(RowBytes * k, Chunk(b, k))
  {
    DumpFromIsRows(b, 0);
  }

  // ---------------------------------------------------------------------
  // Newlines: every row is newline-terminated and holds no other newline

  predicate NoNewline(s: string)
  {
    forall i :: 0 <= i < |s| ==> s[i] != '\n'
  }

  /** A row holds exactly one newline, its last character. */
  lemma RowNewlines(offset: nat, row: seq<byte>)
    ensures multiset(RowText(offset, row))['\n'] == 1
  {
    var h, col, asc := Hex(offset, 4), HexColumn(row), AsciiColumn(row);
    assert NoNewline(h) by {
      HexRoundTrip(offset, 4);
    }
    assert NoNewline(col) by {
      forall i | 0 <= i < |col|
        ensures col[i] != '\n'
      {
        if i < 3 * |row| - 1 && i % 3 != 2 {
          var f := HexField(row[i / 3]);
          assert col[i] == f[i % 3];
        }
      }
    }
    OneNewline(h, col, asc);
  }

  lemma OneNewline(h: string, col: string, asc: string)
    requires NoNewline(h) && NoNewline(col) && NoNewline(asc)
    ensures multiset(h + "  " + col + asc + "\n")['\n'] == 1
  {
    var body := h + "  " + col + asc;
    assert NoNewline(body) by {
      forall i | 0 <= i < |body|
        ensures body[i] != '\n'
      {
        if i < |h| {
          assert body[i] == h[i];
        } else if i < |h| + 2 {
          assert body[i] == ' ';
        } else if i < |h| + 2 + |col| {
          assert body[i] == col[i - |h| - 2];
        } else {
          assert body[i] == asc[i - |h| - 2 - |col|];
        }
      }
    }
    assert '\n' !in multiset(body);
    assert h + "  " + col + asc + "\n" == body + "\n";
  }

  /** The dump holds exactly one newline per row: `ceil(|b| / 16)`. */
  lemma {:induction false} DumpFromNewlines(b: seq<byte>, cnt: nat)
    ensures multiset(DumpFrom(b, cnt))['\n'] == NumRows(|b|)
    decreases |b|
  {
    if |b| > 0 {
      var k := if |b| < RowBytes then |b| else RowBytes;
      RowNewlines(cnt, b[..k]);
      DumpFromNewlines(b[k..], cnt + RowBytes);
      assert NumRows(|b|) == 1 + NumRows(|b[k..]|);
    }
  }

  lemma DumpNewlines(b: seq<byte>)
    ensures multiset(Dump(b))['\n'] == NumRows(|b|)
  {
    DumpFromNewlines(b, 0);
  }

  // ---------------------------------------------------------------------
  // Layout of one row and its inverse

  /** Character `i` of the joined fields is character `i % 3` of the
      field of byte `i / 3`. */
  lemma {:induction false} HexFieldsChar(row: seq<byte>, i: nat)
    requires i < 3 * |row|
    ensures HexFields(row)[i] == HexField(row[i / 3])[i % 3]
    decreases |row|
  {
    if i >= 3 {
      HexFieldsChar(row[1..], i - 3);
      assert (i - 3) / 3 == i / 3 - 1 && (i - 3) % 3 == i % 3;
      assert row[1..][i / 3 - 1] == row[i / 3];
    }
  }

  lemma TrimOneSpace(s: string)
    requires |s| >= 2 && s[|s| - 1] == ' ' && s[|s| - 2] != ' ' && s[0] != ' '
    ensures Strip(s) == s[..|s| - 1]
  {
    var s' := s[..|s| - 1];
    assert TrimRight(s) == TrimRight(s');
    assert TrimLeft(s') == s';
  }

  /** Stripping the hexadecimal column removes exactly the final space. */
  lemma StripHexFields(row: seq<byte>)
    requires |row| > 0
    ensures Strip(HexFields(row)) == HexFields(row)[..3 * |row| - 1]
  {
    HexFieldsEnds(row);
    TrimOneSpace(HexFields(row));
  }

  /** The joined fields start with a digit and end with a digit and a
      space. */
  lemma HexFieldsEnds(row: seq<byte>)
    requires |row| > 0
    ensures var s := HexFields(row);
      s[|s| - 1] == ' ' && s[|s| - 2] != ' ' && s[0] != ' '
  {
    var n := |row|;
    HexFieldsChar(row, 3 * n - 1);
    HexFieldsChar(row, 3 * n - 2);
    HexFieldsChar(row, 0);
    assert (3 * n - 1) / 3 == n - 1 && (3 * n - 1) % 3 == 2;
    assert (3 * n - 2) / 3 == n - 1 && (3 * n - 2) % 3 == 1;
  }

  /** `r` holds the two-digit rendering of `x` at position `pos`. */
  predicate HexAt(r: string, pos: nat, x: byte)
  {
    pos + 2 <= |r| && r[pos..pos + 2] == Hex(x, 2)
  }

  /** `r` holds the `achr` character of `x` at position `pos`. */
  predicate AchrAt(r: string, pos: nat, x: byte)
  {
    pos < |r| && r[pos] == Achr(x)
  }

  /** The hexadecimal column is `''.join(fields).strip().ljust(56)`. */
  lemma HexColumnIsJustified(row: seq<byte>)
    ensures HexColumn(row) == LJust(Strip(HexFields(row)), HexColumnWidth)
  {
    if |row| == 0 {
      assert Strip(HexFields(row)) == "";
    } else {
      StripHexFields(row);
      JustifiedFields(row);
    }
  }

  lemma JustifiedFields(row: seq<byte>)
    requires |row| > 0
    ensures HexColumn(row) == LJust(HexFields(row)[..3 * |row| - 1], HexColumnWidth)
  {
    var col, fields := HexColumn(row), HexFields(row);
    var n := |row|;
    var just := LJust(fields[..3 * n - 1], HexColumnWidth);
    forall i | 0 <= i < |col|
      ensures col[i] == just[i]
    {
      if i < 3 * n - 1 {
        assert just[..3 * n - 1] == fields[..3 * n - 1];
        assert just[i] == fields[i];
        HexFieldsChar(row, i);
      }
    }
  }

  /** The hexadecimal column of a row of at most 16 bytes: each byte's
      two digits at a multiple of three, single spaces between them,
      spaces up to 56 characters. */
  lemma HexColumnLayout(row: seq<byte>)
    requires 1 <= |row| <= RowBytes
    ensures |HexColumn(row)| == HexColumnWidth
    ensures forall j :: 0 <= j < |row| ==> HexAt(HexColumn(row), 3 * j, row[j])
    ensures forall j :: 0 <= j < |row| - 1 ==> HexColumn(row)[3 * j + 2] == ' '
    ensures forall i :: 3 * |row| - 1 <= i < HexColumnWidth ==> HexColumn(row)[i] == ' '
  {
    var col := HexColumn(row);
    forall j | 0 <= j < |row|
      ensures HexAt(col, 3 * j, row[j])
    {
      HexFieldIsHex(row[j]);
      var f := HexField(row[j]);
      assert col[3 * j] == f[0] && col[3 * j + 1] == f[1];
      assert col[3 * j..3 * j + 2] == f[..2];
    }
  }

  /** `r` is a row whose offset field is `h`: two spaces, the bytes of
      `row` as two-digit fields separated by one space and padded with
      spaces to 56 characters, one `achr` character per byte, then a
      newline. */
  predicate RowShape(r: string, h: string, row: seq<byte>)
  {
    var w := |h|;
    && 1 <= |row| <= RowBytes
    && |r| == w + 2 + HexColumnWidth + |row| + 1
    && r[..w] == h
    && r[w..w + 2] == "  "
    && (forall j :: 0 <= j < |row| ==> HexAt(r, w + 2 + 3 * j, row[j]))
    && (forall j :: 0 <= j < |row| - 1 ==> r[w + 4 + 3 * j] == ' ')
    && (forall i :: w + 1 + 3 * |row| <= i < w + 2 + HexColumnWidth ==> r[i] == ' ')
    && (forall j :: 0 <= j < |row| ==> AchrAt(r, w + 2 + HexColumnWidth + j, row[j]))
    && r[|r| - 1] == '\n'
  }

  /** Row layout: the offset in at least four hexadecimal digits that read
      back as the offset, then the shape above. */
  lemma RowLayout(offset: nat, row: seq<byte>)
    requires 1 <= |row| <= RowBytes
    ensures |Hex(offset, 4)| >= 4 && Value(Hex(offset, 4), 16) == offset
    ensures RowShape(RowText(offset, row), Hex(offset, 4), row)
  {
    var h, col, asc := Hex(offset, 4), HexColumn(row), AsciiColumn(row);
    HexRoundTrip(offset, 4);
    HexColumnLayout(row);
    RowFromParts(h, col, asc, row);
  }

  /** The layout of a row, from the layout of its parts. */
  lemma RowFromParts(h: string, col: string, asc: string, row: seq<byte>)
    requires 1 <= |row| <= RowBytes
    requires |col| == HexColumnWidth
    requires forall j :: 0 <= j < |row| ==> HexAt(col, 3 * j, row[j])
    requires forall j :: 0 <= j < |row| - 1 ==> col[3 * j + 2] == ' '
    requires forall i :: 3 * |row| - 1 <= i < HexColumnWidth ==> col[i] == ' '
    requires |asc| == |row| && forall j :: 0 <= j < |row| ==> asc[j] == Achr(row[j])
    ensures RowShape(h + "  " + col + asc + "\n", h, row)
  {
    var r := h + "  " + col + asc + "\n";
    RowHexPart(h, col, asc, row);
    RowSpacePart(h, col, asc, |row|);
    RowAsciiPart(h, col, asc, row);
    assert r[..|h|] == h;
  }

  lemma RowHexPart(h: string, col: string, asc: string, row: seq<byte>)
    requires |col| == HexColumnWidth && |row| <= RowBytes
    requires forall j :: 0 <= j < |row| ==> HexAt(col, 3 * j, row[j])
    ensures var r, w := h + "  " + col + asc + "\n", |h|;
      forall j :: 0 <= j < |row| ==> HexAt(r, w + 2 + 3 * j, row[j])
  {
    var r, w := h + "  " + col + asc + "\n", |h|;
    forall j | 0 <= j < |row|
      ensures HexAt(r, w + 2 + 3 * j, row[j])
    {
      assert HexAt(col, 3 * j, row[j]);
      assert r[w + 2 + 3 * j..w + 4 + 3 * j] == col[3 * j..3 * j + 2];
    }
  }

  lemma RowSpacePart(h: string, col: string, asc: string, n: nat)
    requires |col| == HexColumnWidth && 1 <= n <= RowBytes
    requires forall j :: 0 <= j < n - 1 ==> col[3 * j + 2] == ' '
    requires forall i :: 3 * n - 1 <= i < HexColumnWidth ==> col[i] == ' '
    ensures var r, w := h + "  " + col + asc + "\n", |h|;
      && r[w..w + 2] == "  "
      && (forall j :: 0 <= j < n - 1 ==> r[w + 4 + 3 * j] == ' ')
      && (forall i :: w + 1 + 3 * n <= i < w + 2 + HexColumnWidth ==> r[i] == ' ')
  {
    var r, w := h + "  " + col + asc + "\n", |h|;
    forall j | 0 <= j < n - 1
      ensures r[w + 4 + 3 * j] == ' '
    {
      assert r[w + 4 + 3 * j] == col[3 * j + 2];
    }
    forall i | w + 1 + 3 * n <= i < w + 2 + HexColumnWidth
      ensures r[i] == ' '
    {
      assert r[i] == col[i - w - 2];
    }
  }

  lemma RowAsciiPart(h: string, col: string, asc: string, row: seq<byte>)
    requires |col| == HexColumnWidth
    requires |asc| == |row| && forall j :: 0 <= j < |row| ==> asc[j] == Achr(row[j])
    ensures var r, w := h + "  " + col + asc + "\n", |h|;
      && |r| == w + 2 + HexColumnWidth + |row| + 1
      && (forall j :: 0 <= j < |row| ==> AchrAt(r, w + 2 + HexColumnWidth + j, row[j]))
      && r[|r| - 1] == '\n'
  {
    var r, w := h + "  " + col + asc + "\n", |h|;
    forall j | 0 <= j < |row|
      ensures AchrAt(r, w + 2 + HexColumnWidth + j, row[j])
    {
      assert r[w + 2 + HexColumnWidth + j] == asc[j];
    }
  }

  /** Reads the byte values back from the hexadecimal column of a row
      whose offset takes `w` characters. */
  function DecodeRow(line: string, w: nat, n: nat): (row: seq<byte>)
    requires w + 2 + 3 * n <= |line|
    ensures |row| == n
  {
    seq(n, j requires 0 <= j < n => Value(line[w + 2 + 3 * j..w + 4 + 3 * j], 16) % 256)
  }

  /** The hexadecimal column of a rendered row gives back the row's
      bytes: the dump loses nothing. */
  lemma RowRoundTrip(offset: nat, row: seq<byte>)
    requires 1 <= |row| <= RowBytes
    ensures |Hex(offset, 4)| + 2 + 3 * |row| <= |RowText(offset, row)|
    ensures DecodeRow(RowText(offset, row), |Hex(offset, 4)|, |row|) == row
  {
    RowLayout(offset, row);
    ShapeDecodes(RowText(offset, row), Hex(offset, 4), row);
  }

  /** A line of the row shape decodes to the row. */
  lemma ShapeDecodes(r: string, h: string, row: seq<byte>)
    requires RowShape(r, h, row)
    ensures |h| + 2 + 3 * |row| <= |r|
    ensures DecodeRow(r, |h|, |row|) == row
  {
    DecodeHexFields(r, |h|, row);
  }

  /** Reading back the fields of a line that holds them. */
  lemma DecodeHexFields(line: string, w: nat, row: seq<byte>)
    requires w + 2 + 3 * |row| <= |line|
    requires forall j :: 0 <= j < |row| ==> HexAt(line, w + 2 + 3 * j, row[j])
    ensures DecodeRow(line, w, |row|) == row
  {
    var d := DecodeRow(line, w, |row|);
    forall j | 0 <= j < |row|
      ensures d[j] == row[j]
    {
      assert HexAt(line, w + 2 + 3 * j, row[j]);
      HexRoundTrip(row[j], 2);
    }
  }

  /** Sixteen bytes give exactly one row, at offset 0000. */
  lemma SixteenBytesOneRow(b: seq<byte>)
    requires |b| == RowBytes
    ensures Dump(b) == RowText(0, b)
    ensures Hex(0, 4) == "0000"
  {
    assert b[..RowBytes] == b;
    assert b[RowBytes..] == [];
    assert DumpFrom([], RowBytes) == "";
    assert DumpFrom(b, 0) == RowText(0, b) + DumpFrom([], RowBytes);
    assert Digits(0, 16) == "0";
  }
}
