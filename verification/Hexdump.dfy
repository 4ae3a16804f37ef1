/** Bytes shown as a hexdump (src/tui/body.rs) and read back from it (src/tui/editor_pane.rs). */
module Hexdump {
  import opened Wrappers
  import opened Text
  import opened Numbers

  type Byte = b: int | 0 <= b < 0x100

  const WIDTH := 16

  /** Offsets from here on need more than eight hexadecimal digits. */
  const OFFSET_LIMIT := 0x1_0000_0000

  // ----- printing

  function Zeros(n: nat): string {
    seq(n, _ => '0')
  }

  /** Lower-case hexadecimal, padded with zeros to a least width. */
  function PadHex(n: nat, width: nat): string {
    var digits := Digits(n, 16);
    if |digits| >= width then digits else Zeros(width - |digits|) + digits
  }

  /** A byte always takes two digits. */
  function HexByte(b: Byte): string {
    [DigitChar(b / 16), DigitChar(b % 16)]
  }

  function Cell(chunk: seq<Byte>, i: nat): string {
    if i < |chunk| then HexByte(chunk[i]) + " " else "   "
  }

  function HexColumn(chunk: seq<Byte>, i: nat): string
    requires i <= WIDTH
    decreases |chunk| + WIDTH - i
  {
    if i == WIDTH then ""
    else Cell(chunk, i) + (if i == 7 then " " else "") + HexColumn(chunk, i + 1)
  }

  function AsciiChar(b: Byte): char {
    if 0x20 <= b <= 0x7e then b as char else '.'
  }

  function AsciiColumn(chunk: seq<Byte>): string
    requires |chunk| <= WIDTH
  {
    seq(|chunk|, i requires 0 <= i < |chunk| => AsciiChar(chunk[i])) + seq(WIDTH - |chunk|, _ => ' ')
  }

  function LeftColumns(offset: nat, chunk: seq<Byte>): string {
    PadHex(offset, 8) + "  " + HexColumn(chunk, 0) + " "
  }

  function DumpLine(offset: nat, chunk: seq<Byte>): string
    requires |chunk| <= WIDTH
  {
    LeftColumns(offset, chunk) + "|" + AsciiColumn(chunk) + "|"
  }

  function DumpLines(bytes: seq<Byte>, offset: nat): seq<string>
    decreases |bytes|
  {
    if |bytes| == 0 then []
    else if |bytes| <= WIDTH then [DumpLine(offset, bytes)]
    else [DumpLine(offset, bytes[..WIDTH])] + DumpLines(bytes[WIDTH..], offset + WIDTH)
  }

  function Dump(bytes: seq<Byte>): string {
    JoinLines(DumpLines(bytes, 0))
  }

  /** One round of the printing loop. */
  lemma DumpStep(bytes: seq<Byte>, offset: nat)
    requires offset < |bytes|
    ensures var end := if offset + WIDTH < |bytes| then offset + WIDTH else |bytes|;
      JoinLines(DumpLines(bytes[offset..], offset)) ==
      if end < |bytes| then DumpLine(offset, bytes[offset..end]) + "\n" + JoinLines(DumpLines(bytes[end..], end))
      else DumpLine(offset, bytes[offset..end])
  {
    var rest := bytes[offset..];
    if offset + WIDTH < |bytes| {
      assert rest[..WIDTH] == bytes[offset..offset + WIDTH] && rest[WIDTH..] == bytes[offset + WIDTH..];
      var more := DumpLines(rest[WIDTH..], offset + WIDTH);
      assert ([DumpLine(offset, rest[..WIDTH])] + more)[1..] == more;
    } else {
      assert rest == bytes[offset..|bytes|];
    }
  }

  method HexdumpWithAscii(bytes: seq<Byte>) returns (out: string)
    ensures out == Dump(bytes)
  {
    out := "";
    var offset := 0;
    ghost var tail := Dump(bytes);
    assert bytes[0..] == bytes;
    while offset < |bytes|
      invariant out + tail == Dump(bytes)
      invariant tail == if offset < |bytes| then JoinLines(DumpLines(bytes[offset..], offset)) else ""
      decreases |bytes| - offset
    {
      DumpStep(bytes, offset);
      var chunk := bytes[offset..if offset + WIDTH < |bytes| then offset + WIDTH else |bytes|];
      var line := WriteLine(offset, chunk);
      if offset + |chunk| < |bytes| {
        tail := JoinLines(DumpLines(bytes[offset + WIDTH..], offset + WIDTH));
        SeqAssoc(out, line + "\n", tail);
        SeqAssoc(out, line, "\n");
        out := out + line + "\n";
      } else {
        tail := "";
        out := out + line;
      }
      offset := offset + WIDTH;
    }
    assert out + "" == out;
  }

  method WriteLine(offset: nat, chunk: seq<Byte>) returns (out: string)
    requires |chunk| <= WIDTH
    ensures out == DumpLine(offset, chunk)
  {
    var column := WriteColumn(chunk);
    var ascii := WriteAscii(chunk);
    out := PadHex(offset, 8) + "  ";
    out := out + column;
    out := out + " " + "|";
    out := out + ascii;
    out := out + "|";
    SeqAssoc(PadHex(offset, 8) + "  " + column, " ", "|");
  }

  method WriteColumn(chunk: seq<Byte>) returns (column: string)
    ensures column == HexColumn(chunk, 0)
  {
    column := "";
    ghost var rest := HexColumn(chunk, 0);
    for i := 0 to WIDTH
      invariant rest == HexColumn(chunk, i) && column + rest == HexColumn(chunk, 0)
    {
      var cell := Cell(chunk, i) + if i == 7 then " " else "";
      rest := HexColumn(chunk, i + 1);
      SeqAssoc(column, cell, rest);
      column := column + cell;
    }
    assert column + "" == column;
  }

  method WriteAscii(chunk: seq<Byte>) returns (ascii: string)
    requires |chunk| <= WIDTH
    ensures ascii == AsciiColumn(chunk)
    ensures |ascii| == 16
    ensures forall i :: 0 <= i < |ascii| ==>
      ascii[i] ==
      if i >= |chunk| then ' ' else if ' ' as int <= chunk[i] as int <= '~' as int then chunk[i] as char else '.'
  {
    ascii := "";
    for i := 0 to |chunk|
      invariant |ascii| == i && forall j :: 0 <= j < i ==> ascii[j] == AsciiChar(chunk[j])
    {
      ascii := ascii + [AsciiChar(chunk[i])];
    }
    for i := |chunk| to WIDTH
      invariant |ascii| == i && forall j :: 0 <= j < i ==> ascii[j] == if j < |chunk| then AsciiChar(chunk[j]) else ' '
    {
      ascii := ascii + " ";
    }
  }

  // ----- reading

  predicate IsHexToken(token: string, length: nat) {
    |token| == length && forall c :: c in token ==> IsHexDigit(c)
  }

  function TokenByte(token: string): (b: Byte)
    requires IsHexToken(token, 2)
  {
    assert token[0] in token && token[1] in token;
    DigitValue(token[0]).value * 16 + DigitValue(token[1]).value
  }

  function TokenBytes(tokens: seq<string>): seq<Byte> {
    if tokens == [] then []
    else (if IsHexToken(tokens[0], 2) then [TokenByte(tokens[0])] else []) + TokenBytes(tokens[1..])
  }

  function LeftWords(line: string): seq<string> {
    SplitWhitespace(TrimEnd(Before(line, '|')))
  }

  predicate HasOffset(words: seq<string>) {
    words != [] && IsHexToken(words[0], 8)
  }

  /** The bytes on one line; nothing unless the first word is an offset of eight digits. */
  function LineBytes(line: string): seq<Byte> {
    var words := LeftWords(line);
    if HasOffset(words) then TokenBytes(words[1..]) else []
  }

  function AllBytes(lines: seq<string>): seq<Byte> {
    if lines == [] then [] else LineBytes(lines[0]) + AllBytes(lines[1..])
  }

  function ExtractBytes(text: string): Option<seq<Byte>> {
    var bytes := AllBytes(Lines(text));
    if bytes == [] then None else Some(bytes)
  }

  lemma {:induction false} AllBytesConcat(a: seq<string>, b: seq<string>)
    ensures AllBytes(a + b) == AllBytes(a) + AllBytes(b)
  {
    if a == [] {
      assert a + b == b;
    } else {
      assert (a + b)[1..] == a[1..] + b;
      AllBytesConcat(a[1..], b);
    }
  }

  lemma AllBytesFrom(lines: seq<string>, i: nat)
    requires i < |lines|
    ensures AllBytes(lines[i..]) == LineBytes(lines[i]) + AllBytes(lines[i + 1..])
  {
    assert lines[i..][1..] == lines[i + 1..];
  }

  lemma TokenBytesFrom(words: seq<string>, j: nat)
    requires j < |words|
    ensures TokenBytes(words[j..])
         == (if IsHexToken(words[j], 2) then [TokenByte(words[j])] else []) + TokenBytes(words[j + 1..])
  {
    assert words[j..][1..] == words[j + 1..];
  }

  /** Goes over the words behind the offset. */
  method ReadTokens(words: seq<string>) returns (bytes: seq<Byte>)
    requires |words| >= 1
    ensures bytes == TokenBytes(words[1..])
  {
    bytes := [];
    for j := 1 to |words|
      invariant bytes + TokenBytes(words[j..]) == TokenBytes(words[1..])
    {
      TokenBytesFrom(words, j);
      if IsHexToken(words[j], 2) {
        SeqAssoc(bytes, [TokenByte(words[j])], TokenBytes(words[j + 1..]));
        bytes := bytes + [TokenByte(words[j])];
      } else {
        SeqAssoc(bytes, [], TokenBytes(words[j + 1..]));
      }
    }
    assert words[|words|..] == [];
  }

  method ExtractHexdumpBytes(text: string) returns (r: Option<seq<Byte>>)
    ensures r == ExtractBytes(text)
  {
    var bytes: seq<Byte> := [];
    var lines := Lines(text);
    for i := 0 to |lines|
      invariant bytes + AllBytes(lines[i..]) == AllBytes(lines)
    {
      AllBytesFrom(lines, i);
      SeqAssoc(bytes, LineBytes(lines[i]), AllBytes(lines[i + 1..]));
      var words := LeftWords(lines[i]);
      if !HasOffset(words) {
        assert bytes + [] == bytes;
        continue;
      }
      var more := ReadTokens(words);
      bytes := bytes + more;
    }
    assert lines[|lines|..] == [] && bytes + [] == bytes;
    r := if bytes == [] then None else Some(bytes);
  }

  // ----- widths

  function Pow16(k: nat): nat {
    if k == 0 then 1 else 16 * Pow16(k - 1)
  }

  lemma {:induction false} DigitsLength(n: nat, k: nat)
    requires k >= 1
    ensures |Digits(n, 16)| <= k <==> n < Pow16(k)
    decreases k
  {
    if k == 1 {
      assert Pow16(1) == 16 * Pow16(0);
      if n >= 16 { assert |Digits(n / 16, 16)| >= 1; }
    } else if n >= 16 {
      DigitsLength(n / 16, k - 1);
    } else {
      PowPositive(k - 1);
    }
  }

  lemma {:induction false} PowPositive(k: nat)
    ensures Pow16(k) >= 1
  {
    if k > 0 { PowPositive(k - 1); }
  }

  lemma PadHexShape(n: nat, width: nat)
    requires width >= 1
    ensures |PadHex(n, width)| >= width
    ensures |PadHex(n, width)| == width <==> n < Pow16(width)
    ensures forall c :: c in PadHex(n, width) ==> IsHexDigit(c)
  {
    DigitsLength(n, width);
    DigitsAreDigits(n, 16);
  }

  lemma OffsetWidth(n: nat)
    ensures IsHexToken(PadHex(n, 8), 8) <==> n < OFFSET_LIMIT
    ensures IsWord(PadHex(n, 8))
  {
    PadHexShape(n, 8);
    assert Pow16(4) == 0x1_0000;
    assert Pow16(8) == 16 * (16 * (16 * (16 * Pow16(4))));
  }

  lemma ByteCell(b: Byte)
    ensures IsHexToken(HexByte(b), 2) && TokenByte(HexByte(b)) == b && IsWord(HexByte(b))
  {
  }

  // ----- the words of a line

  function Tokens(chunk: seq<Byte>): seq<string> {
    seq(|chunk|, i requires 0 <= i < |chunk| => HexByte(chunk[i]))
  }

  lemma SkipSpace(s: string)
    ensures SplitWhitespace(" " + s) == SplitWhitespace(s)
  {
    assert (" " + s)[1..] == s;
  }

  lemma SkipSpaces(n: nat, s: string)
    requires n <= 3
    ensures SplitWhitespace("   "[..n] + s) == SplitWhitespace(s)
  {
    if n == 0 {
      assert "   "[..n] + s == s;
    } else {
      assert "   "[..n] + s == " " + ("   "[..n - 1] + s);
      SkipSpace("   "[..n - 1] + s);
      SkipSpaces(n - 1, s);
    }
  }

  lemma CellWords(chunk: seq<Byte>, i: nat, s: string)
    ensures SplitWhitespace(Cell(chunk, i) + s) ==
            if i < |chunk| then [HexByte(chunk[i])] + SplitWhitespace(s) else SplitWhitespace(s)
  {
    if i < |chunk| {
      ByteCell(chunk[i]);
      SplitWord(HexByte(chunk[i]), s);
    } else {
      SkipSpaces(3, s);
      assert "   "[..3] == "   ";
    }
  }

  lemma GapWords(gap: bool, s: string)
    ensures SplitWhitespace((if gap then " " else "") + s) == SplitWhitespace(s)
  {
    SkipSpace(s);
    assert "" + s == s;
  }

  /** One cell, with or without the gap behind it. */
  lemma CellWords2(chunk: seq<Byte>, i: nat, gap: string, column: string, words: seq<string>)
    requires gap == "" || gap == " "
    requires SplitWhitespace(column + " ") == words
    ensures SplitWhitespace(Cell(chunk, i) + gap + column + " ") ==
            if i < |chunk| then [HexByte(chunk[i])] + words else words
  {
    GapWords(gap == " ", column + " ");
    CellWords(chunk, i, gap + (column + " "));
    SeqAssoc(Cell(chunk, i), gap, column + " ");
    SeqAssoc(Cell(chunk, i) + gap, column, " ");
  }

  lemma {:induction false} ColumnWords(chunk: seq<Byte>, i: nat)
    requires i <= WIDTH && |chunk| <= WIDTH
    ensures SplitWhitespace(HexColumn(chunk, i) + " ") == Tokens(chunk[if i < |chunk| then i else |chunk|..])
    decreases WIDTH - i
  {
    hide SplitWhitespace, Cell, HexByte;
    if i == WIDTH {
      assert HexColumn(chunk, i) + " " == " " + "";
      SkipSpace("");
      SplitNothing();
    } else {
      ColumnWords(chunk, i + 1);
      var words := Tokens(chunk[if i + 1 < |chunk| then i + 1 else |chunk|..]);
      CellWords2(chunk, i, if i == 7 then " " else "", HexColumn(chunk, i + 1), words);
      if i < |chunk| {
        assert Tokens(chunk[i..]) == [HexByte(chunk[i])] + words;
      }
    }
  }

  lemma {:induction false} ColumnChars(chunk: seq<Byte>, i: nat)
    requires i <= WIDTH
    ensures forall c :: c in HexColumn(chunk, i) ==> c == ' ' || IsHexDigit(c)
    decreases WIDTH - i
  {
    if i < WIDTH {
      ColumnChars(chunk, i + 1);
      if i < |chunk| { ByteCell(chunk[i]); }
    }
  }

  lemma LeftChars(offset: nat, chunk: seq<Byte>)
    ensures forall c :: c in LeftColumns(offset, chunk) ==> c == ' ' || IsHexDigit(c)
  {
    PadHexShape(offset, 8);
    ColumnChars(chunk, 0);
  }

  lemma WordsBeforeBar(left: string, right: string)
    requires '|' !in left
    ensures LeftWords(left + "|" + right) == SplitWhitespace(left)
  {
    IndexAfter(left, '|', right);
    SplitOfTrimEnd(left);
  }

  lemma LineWords(offset: nat, chunk: seq<Byte>)
    requires |chunk| <= WIDTH
    ensures LeftWords(DumpLine(offset, chunk)) == [PadHex(offset, 8)] + Tokens(chunk)
  {
    LeftChars(offset, chunk);
    var left, right := LeftColumns(offset, chunk), AsciiColumn(chunk) + "|";
    SeqAssoc(left + "|", AsciiColumn(chunk), "|");
    WordsBeforeBar(left, right);
    LeftWordsOf(offset, chunk);
  }

  lemma LeftWordsOf(offset: nat, chunk: seq<Byte>)
    requires |chunk| <= WIDTH
    ensures SplitWhitespace(LeftColumns(offset, chunk)) == [PadHex(offset, 8)] + Tokens(chunk)
  {
    OffsetWidth(offset);
    var column := HexColumn(chunk, 0);
    FirstWord(PadHex(offset, 8), column);
    ColumnWords(chunk, 0);
    assert chunk[0..] == chunk;
  }

  lemma FirstWord(word: string, column: string)
    requires IsWord(word)
    ensures SplitWhitespace(word + "  " + column + " ") == [word] + SplitWhitespace(column + " ")
  {
    assert word + "  " + column + " " == word + " " + (" " + (column + " "));
    SplitWord(word, " " + (column + " "));
    SkipSpace(column + " ");
  }

  lemma {:induction false} TokensRead(chunk: seq<Byte>)
    ensures TokenBytes(Tokens(chunk)) == chunk
  {
    if chunk != [] {
      ByteCell(chunk[0]);
      assert Tokens(chunk)[1..] == Tokens(chunk[1..]);
      TokensRead(chunk[1..]);
    }
  }

  /** A line gives its bytes back, unless its offset is too long. */
  lemma LineRead(offset: nat, chunk: seq<Byte>)
    requires |chunk| <= WIDTH
    ensures LineBytes(DumpLine(offset, chunk)) == if offset < OFFSET_LIMIT then chunk else []
  {
    LineWords(offset, chunk);
    OffsetWidth(offset);
    TokensRead(chunk);
    assert ([PadHex(offset, 8)] + Tokens(chunk))[1..] == Tokens(chunk);
  }

  lemma BarredIsLine(left: string, middle: string)
    requires '\n' !in left && '\n' !in middle
    ensures IsLine(left + "|" + middle + "|") && left + "|" + middle + "|" != ""
  {
  }

  lemma AsciiChars(chunk: seq<Byte>)
    requires |chunk| <= WIDTH
    ensures |AsciiColumn(chunk)| == WIDTH && forall c :: c in AsciiColumn(chunk) ==> ' ' <= c <= '~'
  {
  }

  lemma DumpLineIsLine(offset: nat, chunk: seq<Byte>)
    requires |chunk| <= WIDTH
    ensures IsLine(DumpLine(offset, chunk)) && DumpLine(offset, chunk) != ""
  {
    LeftChars(offset, chunk);
    AsciiChars(chunk);
    BarredIsLine(LeftColumns(offset, chunk), AsciiColumn(chunk));
  }

  function Min(a: int, b: int): int {
    if a < b then a else b
  }

  /** The bytes a dump that starts at this offset gives back. */
  function Kept(bytes: seq<Byte>, offset: nat): seq<Byte> {
    if offset < OFFSET_LIMIT then bytes[..Min(|bytes|, OFFSET_LIMIT - offset)] else []
  }

  lemma KeptStep(bytes: seq<Byte>, offset: nat)
    requires offset % WIDTH == 0
    ensures var n := Min(|bytes|, WIDTH);
      Kept(bytes, offset) == (if offset < OFFSET_LIMIT then bytes[..n] else []) + Kept(bytes[n..], offset + WIDTH)
  {
    if offset < OFFSET_LIMIT {
      assert offset + WIDTH <= OFFSET_LIMIT;
    }
  }

  lemma {:induction false} DumpLinesAreLines(bytes: seq<Byte>, offset: nat)
    ensures forall i :: 0 <= i < |DumpLines(bytes, offset)| ==>
              IsLine(DumpLines(bytes, offset)[i]) && DumpLines(bytes, offset)[i] != ""
    decreases |bytes|
  {
    if 0 < |bytes| <= WIDTH {
      DumpLineIsLine(offset, bytes);
    } else if |bytes| > WIDTH {
      DumpLineIsLine(offset, bytes[..WIDTH]);
      DumpLinesAreLines(bytes[WIDTH..], offset + WIDTH);
    }
  }

  function Flatten(pieces: seq<seq<Byte>>): seq<Byte> {
    if pieces == [] then [] else pieces[0] + Flatten(pieces[1..])
  }

  lemma {:induction false} AllBytesFlatten(lines: seq<string>, pieces: seq<seq<Byte>>)
    requires |lines| == |pieces| && forall i :: 0 <= i < |lines| ==> LineBytes(lines[i]) == pieces[i]
    ensures AllBytes(lines) == Flatten(pieces)
  {
    if lines != [] {
      AllBytesFlatten(lines[1..], pieces[1..]);
    }
  }

  /** What each line of a dump gives back. */
  function KeptPieces(bytes: seq<Byte>, offset: nat): seq<seq<Byte>>
    decreases |bytes|
  {
    if |bytes| == 0 then []
    else
      var n := Min(|bytes|, WIDTH);
      [if offset < OFFSET_LIMIT then bytes[..n] else []] + KeptPieces(bytes[n..], offset + WIDTH)
  }

  lemma {:induction false} KeptPiecesFlatten(bytes: seq<Byte>, offset: nat)
    requires offset % WIDTH == 0
    ensures Flatten(KeptPieces(bytes, offset)) == Kept(bytes, offset)
    decreases |bytes|
  {
    if |bytes| > 0 {
      var n := Min(|bytes|, WIDTH);
      KeptPiecesFlatten(bytes[n..], offset + WIDTH);
      KeptStep(bytes, offset);
    }
  }

  lemma {:induction false} DumpLinesRead(bytes: seq<Byte>, offset: nat)
    ensures |DumpLines(bytes, offset)| == |KeptPieces(bytes, offset)|
    ensures forall i :: 0 <= i < |DumpLines(bytes, offset)| ==>
              LineBytes(DumpLines(bytes, offset)[i]) == KeptPieces(bytes, offset)[i]
    decreases |bytes|
  {
    hide LineBytes, DumpLine;
    if 0 < |bytes| <= WIDTH {
      LineRead(offset, bytes);
      assert bytes[..|bytes|] == bytes;
    } else if |bytes| > WIDTH {
      LineRead(offset, bytes[..WIDTH]);
      DumpLinesRead(bytes[WIDTH..], offset + WIDTH);
    }
  }

  /** The round trip: everything comes back up to the first 2^32 bytes, whatever the ASCII column shows. */
  lemma HexdumpRoundTrip(bytes: seq<Byte>)
    requires bytes != []
    ensures ExtractBytes(Dump(bytes)) == Some(bytes[..Min(|bytes|, OFFSET_LIMIT)])
  {
    DumpLinesRead(bytes, 0);
    AllBytesFlatten(DumpLines(bytes, 0), KeptPieces(bytes, 0));
    KeptPiecesFlatten(bytes, 0);
    DumpLinesAreLines(bytes, 0);
    LinesOfJoined(DumpLines(bytes, 0));
  }
}
