/** A body on its way from the capture to the editor: shown in the detail pane (src/tui/body.rs,
    src/tui/external_diff.rs) and classified again from that text (src/tui/editor_pane.rs). */
module BodyDisplay {
  import opened Wrappers
  import opened Text
  import opened Numbers
  import opened Hexdump
  import opened Messages

  // ----- what the detail pane shows

  datatype Magic = Png | Jpeg | Gif | Pdf | Zip | Gzip | Zstd | Wasm | Elf | Bmp | Webp | Wav | Ogg | Avif | Mp4 {
    function Name(): string {
      match this
      case Png => "png"
      case Jpeg => "jpeg"
      case Gif => "gif"
      case Pdf => "pdf"
      case Zip => "zip"
      case Gzip => "gzip"
      case Zstd => "zstd"
      case Wasm => "wasm"
      case Elf => "elf"
      case Bmp => "bmp"
      case Webp => "webp"
      case Wav => "wav"
      case Ogg => "ogg"
      case Avif => "avif"
      case Mp4 => "mp4"
    }
  }

  function AsciiByte(c: char): Byte {
    if c < '\U{0080}' then c as int else 0
  }

  function Ascii(s: string): seq<Byte> {
    seq(|s|, i requires 0 <= i < |s| => AsciiByte(s[i]))
  }

  predicate HasAt(bytes: seq<Byte>, i: nat, pat: seq<Byte>) {
    i + |pat| <= |bytes| && bytes[i..i + |pat|] == pat
  }

  function MagicKind(bytes: seq<Byte>): Option<Magic> {
    if [0x89, 0x50, 0x4e, 0x47, 0x0d, 0x0a, 0x1a, 0x0a] <= bytes then Some(Png)
    else if [0xff, 0xd8, 0xff] <= bytes then Some(Jpeg)
    else if Ascii("GIF87a") <= bytes || Ascii("GIF89a") <= bytes then Some(Gif)
    else if Ascii("%PDF-") <= bytes then Some(Pdf)
    else if [0x50, 0x4b, 3, 4] <= bytes || [0x50, 0x4b, 5, 6] <= bytes || [0x50, 0x4b, 7, 8] <= bytes then Some(Zip)
    else if [0x1f, 0x8b] <= bytes then Some(Gzip)
    else if [0x28, 0xb5, 0x2f, 0xfd] <= bytes then Some(Zstd)
    else if [0, 0x61, 0x73, 0x6d] <= bytes then Some(Wasm)
    else if [0x7f, 0x45, 0x4c, 0x46] <= bytes then Some(Elf)
    else if Ascii("BM") <= bytes then Some(Bmp)
    else if Ascii("RIFF") <= bytes && HasAt(bytes, 8, Ascii("WEBP")) then Some(Webp)
    else if Ascii("RIFF") <= bytes && HasAt(bytes, 8, Ascii("WAVE")) then Some(Wav)
    else if Ascii("OggS") <= bytes then Some(Ogg)
    else if HasAt(bytes, 4, Ascii("ftypavif")) then Some(Avif)
    else if |bytes| >= 12 && HasAt(bytes, 4, Ascii("ftyp")) then Some(Mp4)
    else None
  }

  function ControlCount(text: string): nat {
    if text == "" then 0
    else (if IsControl(text[0]) && text[0] !in "\n\r\t" then 1 else 0) + ControlCount(text[1..])
  }

  /** At most five per cent control characters. */
  predicate LooksLikeText(text: string) {
    |text| == 0 || ControlCount(text) * 100 / |text| <= 5
  }

  /** The decoders behind the display: UTF-8, and base64 text worth showing decoded. */
  datatype Decoders = Decoders(utf8: seq<Byte> -> Option<string>, base64: string -> Option<string>)

  function MagicHeader(kind: string): string {
    "<binary body detected" + " by magic number: " + kind + ">"
  }

  predicate ShownAsText(d: Decoders, bytes: seq<Byte>) {
    MagicKind(bytes).None? && d.utf8(bytes).Some? && LooksLikeText(d.utf8(bytes).value)
  }

  function FormatBodyForDisplay(d: Decoders, bytes: seq<Byte>): string {
    match MagicKind(bytes)
    case Some(kind) => MagicHeader(kind.Name()) + "\n" + ("\n" + Dump(bytes))
    case None =>
      if ShownAsText(d, bytes) then
        var text := d.utf8(bytes).value;
        match d.base64(text)
        case Some(decoded) => "<base64 text decoded for display>\n\n" + decoded
        case None => text
      else Dump(bytes)
  }

  function FormatBodyWithSize(size: string, body: string): string {
    "body size :" + (" " + size) + ("\n\n" + body)
  }

  // ----- what the editor makes of it

  function SplitAtBlankLine(text: string): Option<string> {
    match Find(text, "\n\n")
    case None => None
    case Some(i) => Some(text[i + 2..])
  }

  function StripBodySizeHeader(text: string): string {
    if "body size :" <= text then SplitAtBlankLine(text).GetOr(text) else text
  }

  datatype LineClass = BlankLine | DumpedLine | OtherLine

  /** A dumped line has an offset and one to sixteen bytes. */
  function ClassOf(line: string): LineClass {
    if Trim(line) == "" then BlankLine
    else if HasOffset(LeftWords(line)) && 1 <= |LineBytes(line)| <= 16 then DumpedLine
    else OtherLine
  }

  function Classes(lines: seq<string>): seq<LineClass> {
    seq(|lines|, i requires 0 <= i < |lines| => ClassOf(lines[i]))
  }

  function Count(classes: seq<LineClass>, c: LineClass): nat {
    if classes == [] then 0 else (if classes[0] == c then 1 else 0) + Count(classes[1..], c)
  }

  /** At least four fifths of the lines that are not blank look dumped. */
  predicate LooksLikeHexdump(text: string) {
    var classes := Classes(Lines(text));
    var valid := Count(classes, DumpedLine);
    MostlyValid(valid, valid + Count(classes, OtherLine))
  }

  predicate MostlyValid(valid: nat, total: nat) {
    total > 0 && valid > 0 && valid * 100 / total >= 80
  }

  method Classify(line: string) returns (c: LineClass)
    ensures c == ClassOf(line)
  {
    if Trim(line) == "" {
      return BlankLine;
    }
    var words := LeftWords(line);
    if !HasOffset(words) {
      return OtherLine;
    }
    var tokens := |TokenBytes(words[1..])|;
    c := if 1 <= tokens <= 16 then DumpedLine else OtherLine;
  }

  lemma TimesMonotone(a: nat, b: nat, c: nat)
    requires a <= b
    ensures c * a <= c * b
  {
  }

  lemma FourFifths(valid: nat, total: nat)
    ensures MostlyValid(valid, total) <==> total > 0 && valid > 0 && 5 * valid >= 4 * total
  {
    if total > 0 {
      var q := valid * 100 / total;
      assert valid * 100 == total * q + valid * 100 % total;
      if q >= 80 {
        TimesMonotone(80, q, total);
      } else {
        TimesMonotone(q, 79, total);
      }
    }
  }

  method CheckHexdump(text: string) returns (r: bool)
    ensures r == LooksLikeHexdump(text)
    ensures var classes := Classes(Lines(text));
      var valid, total := Count(classes, DumpedLine), Count(classes, DumpedLine) + Count(classes, OtherLine);
      r <==> valid > 0 && 5 * valid >= 4 * total
  {
    hide ClassOf, Lines, MostlyValid;
    var lines := Lines(text);
    ghost var classes := Classes(lines);
    var total, valid := 0, 0;
    for i := 0 to |lines|
      invariant Count(classes, DumpedLine) == valid + Count(classes[i..], DumpedLine)
      invariant Count(classes, OtherLine) == total - valid + Count(classes[i..], OtherLine)
    {
      var c := Classify(lines[i]);
      assert classes[i] == c;
      if c == BlankLine {
        continue;
      }
      total := total + 1;
      if c == DumpedLine {
        valid := valid + 1;
      }
    }
    FourFifths(valid, total);
    r := MostlyValid(valid, total);
  }

  const GZIP_MARK := "magic number: gzip"

  function DecodeGzip(gunzip: seq<Byte> -> Option<string>, body: string): Option<string> {
    if !Contains(body, GZIP_MARK) then None
    else match ExtractBytes(body)
      case None => None
      case Some(bytes) =>
        match gunzip(bytes)
        case None => None
        case Some(text) => if Trim(text) == "" then None else Some(text)
  }

  function EditableBody(gunzip: seq<Byte> -> Option<string>, text: string, contentType: Option<string>): Body {
    var body := Trim(text);
    if body == "" || "<no path>" <= body || "<read error:" <= body then EmptyBody
    else match DecodeGzip(gunzip, body)
      case Some(decoded) => TextBody(decoded, contentType)
      case None =>
        if "<binary body detected" <= body || LooksLikeHexdump(body) then
          BinaryBody(match ExtractBytes(body) case Some(bytes) => |bytes| case None => |text|, contentType)
        else TextBody(text, contentType)
  }

  // ----- the size header comes off again

  lemma FirstBlankLine(head: string, body: string)
    requires '\n' !in head
    ensures Find(head + ("\n\n" + body), "\n\n") == Some(|head|)
    ensures (head + ("\n\n" + body))[|head| + 2..] == body
  {
    var text := head + ("\n\n" + body);
    forall j: nat | j < |head| ensures !OccursAt(text, "\n\n", j) {
      assert text[j] == head[j] && head[j] in head;
      if OccursAt(text, "\n\n", j) { OccursMeans(text, "\n\n", j, 0); }
    }
    assert text[|head|..|head| + 2] == "\n\n";
    assert OccursAt(text, "\n\n", |head|);
  }

  /** Stripping undoes adding, for any body and any size line. */
  lemma StripUndoesAdd(size: string, body: string)
    requires '\n' !in size
    ensures StripBodySizeHeader(FormatBodyWithSize(size, body)) == body
  {
    hide Find;
    var head := "body size :" + (" " + size);
    forall j | 0 <= j < |head| ensures head[j] != '\n' {
      if j >= 11 { HeadChar(size, j - 11); }
    }
    FirstBlankLine(head, body);
    assert head + ("\n\n" + body) == "body size :" + (" " + size + ("\n\n" + body));
  }

  lemma HeadChar(size: string, j: nat)
    requires '\n' !in size && j < |size| + 1
    ensures ("body size :" + (" " + size))[j + 11] != '\n'
  {
    assert ("body size :" + (" " + size))[j + 11] == (" " + size)[j];
    if j > 0 { assert (" " + size)[j] in size; }
  }

  // ----- no gzip mark in a dump of something else

  /** A mark without a line feed occurs in joined lines only inside one of them. */
  lemma {:induction false} MarkInJoined(ls: seq<string>, mark: string)
    requires mark != "" && '\n' !in mark
    requires forall i :: 0 <= i < |ls| ==> !Contains(ls[i], mark)
    ensures !Contains(JoinLines(ls), mark)
  {
    if |ls| > 1 {
      MarkInJoined(ls[1..], mark);
      MarkAcrossLine(ls[0], JoinLines(ls[1..]), mark);
    }
  }

  lemma MarkAcrossLine(l: string, rest: string, mark: string)
    requires mark != "" && '\n' !in mark && !Contains(l, mark) && !Contains(rest, mark)
    ensures !Contains(l + "\n" + rest, mark)
  {
    var text := l + "\n" + rest;
    if Contains(text, mark) {
      var j := Find(text, mark).value;
      if j <= |l| && |l| < j + |mark| {
        OccursMeans(text, mark, j, |l| - j);
      } else if j + |mark| <= |l| {
        assert text[j..j + |mark|] == l[j..j + |mark|];
        assert OccursAt(l, mark, j);
      } else {
        OccursInTail(l + "\n", rest, mark, j - |l| - 1);
      }
    }
  }

  lemma NoMarkInDumpLine(offset: nat, chunk: seq<Byte>)
    requires |chunk| <= WIDTH
    ensures !Contains(DumpLine(offset, chunk), GZIP_MARK)
  {
    LeftChars(offset, chunk);
    AsciiChars(chunk);
    MarkTooLong(LeftColumns(offset, chunk), AsciiColumn(chunk));
  }

  /** The mark starts with a letter that is no hexadecimal digit, and is longer than what can follow
      the hexadecimal columns. */
  lemma MarkTooLong(left: string, ascii: string)
    requires (forall c :: c in left ==> c == ' ' || IsHexDigit(c)) && |ascii| == 16
    ensures !Contains(left + "|" + ascii + "|", GZIP_MARK)
  {
    var text := left + "|" + ascii + "|";
    forall j: nat ensures !OccursAt(text, GZIP_MARK, j) {
      if j + 18 <= |text| {
        assert text[j] != 'm' by {
          if j < |left| { assert text[j] == left[j] && left[j] in left; } else { assert text[j] == '|'; }
        }
        if OccursAt(text, GZIP_MARK, j) { OccursMeans(text, GZIP_MARK, j, 0); }
      }
    }
  }

  lemma {:induction false} NoMarkInDumpLines(bytes: seq<Byte>, offset: nat)
    ensures forall i :: 0 <= i < |DumpLines(bytes, offset)| ==> !Contains(DumpLines(bytes, offset)[i], GZIP_MARK)
    decreases |bytes|
  {
    if 0 < |bytes| <= WIDTH {
      NoMarkInDumpLine(offset, bytes);
    } else if |bytes| > WIDTH {
      NoMarkInDumpLine(offset, bytes[..WIDTH]);
      NoMarkInDumpLines(bytes[WIDTH..], offset + WIDTH);
    }
  }

  lemma NoMarkInDump(bytes: seq<Byte>)
    ensures !Contains(Dump(bytes), GZIP_MARK)
  {
    NoMarkInDumpLines(bytes, 0);
    MarkInJoined(DumpLines(bytes, 0), GZIP_MARK);
  }

  const HEADER_START := "<binary body detected by "
  const MARK_START := "magic number: "

  lemma HeaderShape(kind: string)
    ensures MagicHeader(kind) == HEADER_START + MARK_START + (kind + ">")
    ensures GZIP_MARK == MARK_START + "gzip"
    ensures ':' !in HEADER_START && ':' !in "magic number"
  {
    assert "<binary body detected" + " by magic number: " == HEADER_START + MARK_START;
  }

  lemma KindNames(kind: Magic)
    ensures ':' !in kind.Name() && '\n' !in kind.Name() && '|' !in kind.Name()
    ensures kind != Gzip ==> !("gzip" <= kind.Name() + ">")
  {
    var s := kind.Name() + ">";
    match kind {
      case Gif => assert s[1] == 'i';
      case Gzip =>
      case _ => assert s[0] != 'g';
    }
  }

  /** The only colon of the header line ends the words "magic number", so the mark can only be there. */
  lemma NoMarkInHeader(kind: Magic)
    requires kind != Gzip
    ensures !Contains(MagicHeader(kind.Name()), GZIP_MARK)
  {
    var tail := kind.Name() + ">";
    var text := MagicHeader(kind.Name());
    HeaderShape(kind.Name());
    KindNames(kind);
    var n := |HEADER_START|;
    ColonAt(HEADER_START, tail);
    forall j: nat ensures !OccursAt(text, GZIP_MARK, j) {
      if j + 18 <= |text| {
        if j == n {
          assert text[n..n + 18][14..] == tail[..4];
          assert GZIP_MARK[14..] == "gzip" && tail[..4] != "gzip";
        } else {
          assert text[j + 12] != ':';
          if OccursAt(text, GZIP_MARK, j) { OccursMeans(text, GZIP_MARK, j, 12); }
        }
      }
    }
  }

  lemma ColonAt(start: string, tail: string)
    requires ':' !in start && ':' !in tail
    ensures var text := start + MARK_START + tail;
      forall i :: 0 <= i < |text| && i != |start| + 12 ==> text[i] != ':'
  {
    var text := start + MARK_START + tail;
    forall i | 0 <= i < |text| && i != |start| + 12 ensures text[i] != ':' {
      if i < |start| { assert text[i] == start[i]; }
      else if i < |start| + 14 { assert text[i] == MARK_START[i - |start|]; }
      else { assert text[i] == tail[i - |start| - 14]; }
    }
  }

  // ----- the whole way

  lemma DumpEnds(bytes: seq<Byte>)
    requires bytes != []
    ensures var text := Dump(bytes);
      text != "" && IsHexDigit(text[0]) && text[|text| - 1] == '|'
  {
    DumpLinesEnd(bytes, 0);
  }

  lemma LineEnds(offset: nat, chunk: seq<Byte>)
    requires |chunk| <= WIDTH
    ensures var text := DumpLine(offset, chunk);
      text != "" && IsHexDigit(text[0]) && text[|text| - 1] == '|'
  {
    PadHexShape(offset, 8);
    var s := PadHex(offset, 8);
    assert s[0] in s;
    assert DumpLine(offset, chunk)[0] == s[0];
  }

  lemma {:induction false} DumpLinesEnd(bytes: seq<Byte>, offset: nat)
    requires bytes != []
    ensures var text := JoinLines(DumpLines(bytes, offset));
      text != "" && IsHexDigit(text[0]) && text[|text| - 1] == '|'
    decreases |bytes|
  {
    if |bytes| <= WIDTH {
      LineEnds(offset, bytes);
    } else {
      LineEnds(offset, bytes[..WIDTH]);
      DumpLinesEnd(bytes[WIDTH..], offset + WIDTH);
      var more := DumpLines(bytes[WIDTH..], offset + WIDTH);
      assert ([DumpLine(offset, bytes[..WIDTH])] + more)[1..] == more;
    }
  }

  lemma {:induction false} CountAll(classes: seq<LineClass>)
    requires forall i :: 0 <= i < |classes| ==> classes[i] == DumpedLine
    ensures Count(classes, DumpedLine) == |classes| && Count(classes, OtherLine) == 0
  {
    if classes != [] { CountAll(classes[1..]); }
  }

  lemma DumpedClass(offset: nat, chunk: seq<Byte>)
    requires 0 < |chunk| <= WIDTH && offset < OFFSET_LIMIT
    ensures ClassOf(DumpLine(offset, chunk)) == DumpedLine
  {
    LineRead(offset, chunk);
    LineWords(offset, chunk);
    OffsetWidth(offset);
    LineEnds(offset, chunk);
    var line := DumpLine(offset, chunk);
    var i, j := TrimShape(line);
    assert !IsWhitespace(line[0]);
  }

  predicate AreDumped(lines: seq<string>) {
    forall i :: 0 <= i < |Classes(lines)| ==> Classes(lines)[i] == DumpedLine
  }

  lemma ClassesStep(lines: seq<string>)
    requires lines != []
    ensures Classes(lines) == [ClassOf(lines[0])] + Classes(lines[1..])
  {
  }

  lemma {:induction false} DumpedClasses(bytes: seq<Byte>, offset: nat)
    requires offset + |bytes| <= OFFSET_LIMIT
    ensures AreDumped(DumpLines(bytes, offset))
    decreases |bytes|
  {
    if |bytes| > 0 {
      var n := Min(|bytes|, WIDTH);
      var lines := DumpLines(bytes, offset);
      var rest := bytes[n..];
      assert lines[0] == DumpLine(offset, bytes[..n]) && lines[1..] == DumpLines(rest, offset + WIDTH) by {
        assert |bytes| <= WIDTH ==> bytes[..n] == bytes;
      }
      ClassesStep(lines);
      DumpedClass(offset, bytes[..n]);
      if |bytes| > WIDTH { DumpedClasses(rest, offset + WIDTH); }
    }
  }

  lemma AllValid(n: nat)
    requires n > 0
    ensures MostlyValid(n, n)
  {
    assert 100 * n / n == 100;
  }

  lemma ManyDumped(lines: seq<string>)
    requires lines != [] && AreDumped(lines)
    requires forall i :: 0 <= i < |lines| ==> IsLine(lines[i]) && lines[i] != ""
    ensures LooksLikeHexdump(JoinLines(lines))
  {
    LinesOfJoined(lines);
    CountAll(Classes(lines));
    AllValid(|lines|);
  }

  lemma DumpLooksLikeHexdump(bytes: seq<Byte>)
    requires 0 < |bytes| <= OFFSET_LIMIT
    ensures LooksLikeHexdump(Dump(bytes))
  {
    DumpLinesAreLines(bytes, 0);
    DumpedClasses(bytes, 0);
    ManyDumped(DumpLines(bytes, 0));
  }

  lemma BytelessLines(header: string, dump: string)
    requires IsLine(header) && LineBytes(header) == []
    ensures AllBytes(Lines(header + "\n" + ("\n" + dump))) == AllBytes(Lines(dump))
  {
    hide Lines, LineBytes;
    LinesCons(header, "\n" + dump);
    LinesCons("", dump);
    assert "" + "\n" + dump == "\n" + dump;
    BlankHasNoBytes();
    var lines := [header] + ([""] + Lines(dump));
    assert lines[1..] == [""] + Lines(dump) && lines[1..][1..] == Lines(dump);
  }

  lemma HeaderIsLine(kind: Magic)
    ensures IsLine(MagicHeader(kind.Name()))
  {
    HeaderShape(kind.Name());
    KindNames(kind);
    assert '\n' !in HEADER_START && '\n' !in MARK_START;
  }

  lemma BlankHasNoBytes()
    ensures LineBytes("") == []
  {
  }

  /** A first word that is not eight characters long makes the line worthless. */
  lemma NoOffsetNoBytes(word: string, rest: string)
    requires IsWord(word) && |word| != 8 && '|' !in word && '|' !in rest
    ensures LineBytes(word + " " + rest) == []
  {
    var line := word + " " + rest;
    assert Before(line, '|') == line;
    SplitOfTrimEnd(line);
    SplitWord(word, rest);
  }

  lemma HeaderWords(kind: string)
    ensures MagicHeader(kind) == "<binary" + " " + ("body detected" + " by magic " + "number: " + kind + ">")
    ensures IsWord("<binary") && '|' !in "body detected" && '|' !in " by magic " && '|' !in "number: "
  {
  }

  lemma HeaderHasNoBytes(kind: Magic)
    ensures LineBytes(MagicHeader(kind.Name())) == []
  {
    HeaderWords(kind.Name());
    KindNames(kind);
    NoOffsetNoBytes("<binary", "body detected" + " by magic " + "number: " + kind.Name() + ">");
  }

  /** The line that names the kind of a binary body does not disturb the round trip. */
  lemma HeadedDumpRoundTrip(kind: Magic, bytes: seq<Byte>)
    requires bytes != []
    ensures ExtractBytes(MagicHeader(kind.Name()) + "\n" + ("\n" + Dump(bytes))) ==
            Some(bytes[..Min(|bytes|, OFFSET_LIMIT)])
  {
    hide Lines, LineBytes, Dump;
    HeaderIsLine(kind);
    HeaderHasNoBytes(kind);
    BytelessLines(MagicHeader(kind.Name()), Dump(bytes));
    HexdumpRoundTrip(bytes);
  }

  lemma NoPlaceholder(text: string)
    requires text != "" && (IsHexDigit(text[0]) || "<binary body detected" <= text)
    ensures !("<no path>" <= text) && !("<read error:" <= text)
  {
    assert "<no path>"[0] == '<' && "<read error:"[0] == '<';
    assert "<no path>"[1] == 'n' && "<read error:"[1] == 'r' && "<binary body detected"[1] == 'b';
  }

  lemma BinaryText(gunzip: seq<Byte> -> Option<string>, text: string, bytes: seq<Byte>, contentType: Option<string>)
    requires text != "" && Trim(text) == text && !("<no path>" <= text) && !("<read error:" <= text)
    requires DecodeGzip(gunzip, text).None? && ExtractBytes(text) == Some(bytes)
    requires "<binary body detected" <= text || LooksLikeHexdump(text)
    ensures EditableBody(gunzip, text, contentType) == BinaryBody(|bytes|, contentType)
  {
  }

  lemma DumpIsBinary(gunzip: seq<Byte> -> Option<string>, bytes: seq<Byte>, contentType: Option<string>)
    requires 0 < |bytes| <= OFFSET_LIMIT
    ensures EditableBody(gunzip, Dump(bytes), contentType) == BinaryBody(|bytes|, contentType)
  {
    hide Dump, ExtractBytes, LooksLikeHexdump, Contains, EditableBody, Trim;
    HexdumpRoundTrip(bytes);
    assert bytes[..|bytes|] == bytes;
    NoMarkInDump(bytes);
    DumpEnds(bytes);
    DumpLooksLikeHexdump(bytes);
    TrimOfTrimmed(Dump(bytes));
    NoPlaceholder(Dump(bytes));
    BinaryText(gunzip, Dump(bytes), bytes, contentType);
  }

  lemma NoMarkInMarkedDump(kind: Magic, dump: string)
    requires kind != Gzip && !Contains(dump, GZIP_MARK)
    ensures !Contains(MagicHeader(kind.Name()) + "\n" + ("\n" + dump), GZIP_MARK)
  {
    NoMarkInHeader(kind);
    assert "" + "\n" + dump == "\n" + dump;
    MarkAcrossLine("", dump, GZIP_MARK);
    MarkAcrossLine(MagicHeader(kind.Name()), "\n" + dump, GZIP_MARK);
  }

  lemma MarkedIsTrimmed(kind: string, dump: string)
    requires dump != "" && dump[|dump| - 1] == '|'
    ensures var text := MagicHeader(kind) + "\n" + ("\n" + dump);
      Trim(text) == text && "<binary body detected" <= text && text != ""
  {
    StartsBinary(kind, "\n" + dump);
    var text := MagicHeader(kind) + "\n" + ("\n" + dump);
    assert text[0] == "<binary body detected"[0] && text[|text| - 1] == '|';
    TrimOfTrimmed(text);
  }

  lemma MarkedDumpIsBinary(
    gunzip: seq<Byte> -> Option<string>, kind: Magic, bytes: seq<Byte>, contentType: Option<string>)
    requires 0 < |bytes| <= OFFSET_LIMIT && kind != Gzip
    ensures EditableBody(gunzip, MagicHeader(kind.Name()) + "\n" + ("\n" + Dump(bytes)), contentType) ==
            BinaryBody(|bytes|, contentType)
  {
    var dump := Dump(bytes);
    HexdumpRoundTrip(bytes);
    assert bytes[..|bytes|] == bytes;
    HeaderIsLine(kind);
    HeaderHasNoBytes(kind);
    NoMarkInDump(bytes);
    DumpEnds(bytes);
    MarkedIsBinary(gunzip, kind, dump, bytes, contentType);
  }

  lemma MarkedIsBinary(
    gunzip: seq<Byte> -> Option<string>, kind: Magic, dump: string, bytes: seq<Byte>, contentType: Option<string>)
    requires kind != Gzip && dump != "" && dump[|dump| - 1] == '|'
    ensures !Contains(dump, GZIP_MARK) && ExtractBytes(dump) == Some(bytes) ==>
            EditableBody(gunzip, MagicHeader(kind.Name()) + "\n" + ("\n" + dump), contentType) ==
            BinaryBody(|bytes|, contentType)
  {
    HeaderIsLine(kind);
    HeaderHasNoBytes(kind);
    var text := MagicHeader(kind.Name()) + "\n" + ("\n" + dump);
    BytelessLines(MagicHeader(kind.Name()), dump);
    MarkedIsTrimmed(kind.Name(), dump);
    NoPlaceholder(text);
    if !Contains(dump, GZIP_MARK) && ExtractBytes(dump) == Some(bytes) {
      NoMarkInMarkedDump(kind, dump);
      BinaryText(gunzip, text, bytes, contentType);
    }
  }

  lemma StartsBinary(kind: string, tail: string)
    ensures "<binary body detected" <= MagicHeader(kind) + "\n" + tail
  {
    assert MagicHeader(kind) + "\n" + tail ==
           "<binary body detected" + (" by magic number: " + kind + ">" + "\n" + tail);
  }

  /** A body of at most 2^32 bytes that is shown as a hexdump and is not gzip reaches the editor as a
      binary body of its true length, behind any size line. */
  lemma DisplayToEditor(
    d: Decoders, gunzip: seq<Byte> -> Option<string>, size: string, bytes: seq<Byte>, contentType: Option<string>)
    requires 0 < |bytes| <= OFFSET_LIMIT && !ShownAsText(d, bytes) && MagicKind(bytes) != Some(Gzip)
    requires '\n' !in size
    ensures var shown := FormatBodyWithSize(size, FormatBodyForDisplay(d, bytes));
      EditableBody(gunzip, StripBodySizeHeader(shown), contentType) == BinaryBody(|bytes|, contentType)
  {
    StripUndoesAdd(size, FormatBodyForDisplay(d, bytes));
    var kind := MagicKind(bytes);
    if kind.None? {
      DumpIsBinary(gunzip, bytes, contentType);
    } else {
      MarkedDumpIsBinary(gunzip, kind.value, bytes, contentType);
    }
  }
}
