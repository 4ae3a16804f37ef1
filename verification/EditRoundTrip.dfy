/** Printing a message and parsing the text back gives the message again exactly when the message
    is printable, a condition on its fields alone. */
module EditRoundTrip {
  import opened Wrappers
  import opened Text
  import opened Numbers
  import opened Messages

  // ----- which messages survive

  predicate IsField(s: string) {
    IsTrimmed(s) && '\n' !in s
  }

  predicate IsOptionalField(o: Option<string>) {
    o.Some? ==> o.value != "" && IsField(o.value)
  }

  predicate IsHeader(h: Header) {
    h.name != "" && IsField(h.name) && ':' !in h.name && h.name[0] != '#' && IsField(h.value)
  }

  /** Single trimmed lines everywhere but in the body. A response does not print its method and
      scheme, so they may be anything. */
  predicate IsPrintable(m: Message) {
    && (m.kind.Request? ==> IsOptionalField(m.verb) && IsOptionalField(m.scheme))
    && IsField(m.host) && IsField(m.path) && IsField(m.query)
    && forall h :: h in m.headers ==> IsHeader(h)
  }

  // ----- one line

  lemma KeyLineParses(key: string, value: string)
    requires key != "" && IsField(key) && ':' !in key && key[0] != '#' && IsField(value)
    ensures var line := KeyLine(key, value);
      && IsLine(line)
      && !IsSkipped(Trim(line))
      && SplitOnce(Trim(line), ':').Some?
      && SplitOnce(Trim(line), ':').value.0 == key
      && Trim(SplitOnce(Trim(line), ':').value.1) == value
  {
    var line := KeyLine(key, value);
    assert line == key + [':'] + (" " + value);
    assert line[|line| - 1] == if value == "" then ' ' else value[|value| - 1];
    if value == "" {
      assert TrimStart(line) == line;
      assert line[..|line| - 1] == key + ":";
      assert TrimEnd(line) == TrimEnd(key + ":") == key + ":";
      assert key + ":" == key + [':'] + "";
      IndexAfter(key, ':', "");
    } else {
      TrimOfTrimmed(line);
      IndexAfter(key, ':', " " + value);
      assert (" " + value)[1..] == value;
      TrimOfTrimmed(value);
    }
  }

  // ----- printing then parsing

  lemma {:induction false} DecimalIsField(n: U16)
    ensures IsField(Decimal(n)) && Decimal(n) != "" && ParseU16(Decimal(n)) == Some(n)
  {
    DigitsAreDigits(n, 10);
    ParseOfDecimal(n);
    var s := Decimal(n);
    assert s[0] in s && s[|s| - 1] in s;
  }

  /** What the keys of the meta section have in common. */
  predicate IsKey(key: string) {
    key != "" && IsField(key) && ':' !in key && '\r' !in key && key[0] != '#' && Lower(key) == key
  }

  lemma KeyLineIsNotMarker(key: string, value: string, w: string)
    requires ':' !in key && ':' !in w
    ensures KeyLine(key, value) != w + ":"
    ensures !(w + ":" + "\n" <= KeyLine(key, value))
  {
    var line := KeyLine(key, value);
    assert line == key + [':'] + (" " + value);
    IndexAfter(key, ':', " " + value);
    assert line[|key| + 1] == ' ';
    assert w + ":" == w + [':'] + "";
    IndexAfter(w, ':', "");
    var head := w + ":" + "\n";
    assert head[|w| + 1] == '\n';
    if head <= line {
      assert line == w + [':'] + line[|w| + 1..];
      IndexAfter(w, ':', line[|w| + 1..]);
    }
  }

  datatype Field = Method | Scheme | Host | Path | Query {
    function Key(): string {
      match this
      case Method => "method"
      case Scheme => "scheme"
      case Host => "host"
      case Path => "path"
      case Query => "query"
    }

    /** The field holds something the parser could have put there. */
    predicate IsClean(st: Meta) {
      match this
      case Method => IsOptionalField(st.verb)
      case Scheme => IsOptionalField(st.scheme)
      case Host => IsField(st.host)
      case Path => IsField(st.path)
      case Query => IsField(st.query)
    }

    predicate Holds(st: Meta, value: string) {
      match this
      case Method => st.verb == EmptyToNone(value)
      case Scheme => st.scheme == EmptyToNone(value)
      case Host => st.host == value
      case Path => st.path == value
      case Query => st.query == value
    }
  }

  lemma FieldKeys(f: Field)
    ensures IsKey(f.Key())
  {
  }

  lemma SetSame(f: Field, st: Meta, value: string)
    requires f.Holds(st, value)
    ensures SetMeta(st, f.Key(), value) == Ok(st)
  {
  }

  lemma SetSameKind(st: Meta)
    ensures IsKey("kind") && SetMeta(st, "kind", if st.kind.Request? then "request" else "response") == Ok(st)
  {
  }

  lemma SetSameStatus(st: Meta)
    ensures IsKey("status") && IsField(StatusText(st.status)) && SetMeta(st, "status", StatusText(st.status)) == Ok(st)
  {
    if st.status.Some? { DecimalIsField(st.status.value); }
  }

  lemma LineKeeps(key: string, value: string, st: Meta)
    requires IsKey(key) && IsField(value) && SetMeta(st, key, value) == Ok(st)
    ensures IsLine(KeyLine(key, value)) && KeyLine(key, value) != "headers:"
    ensures ParseMetaLine(KeyLine(key, value), st) == Ok(st)
  {
    KeyLineParses(key, value);
    TrimOfTrimmed(key);
    KeyLineIsNotMarker(key, value, "headers");
    assert "headers" + ":" == "headers:";
  }

  /** Every printed meta line leaves the state of the message it came from alone. */
  lemma MetaLineKeeps(m: Message, i: nat)
    requires IsPrintable(m) && i < |MetaLines(m)|
    ensures IsLine(MetaLines(m)[i]) && MetaLines(m)[i] != "headers:"
    ensures ParseMetaLine(MetaLines(m)[i], InitialMeta(Some(m))) == Ok(InitialMeta(Some(m)))
  {
    var st := InitialMeta(Some(m));
    var n := |KindLines(m)|;
    if i >= n {
      var f := if i == n then Host else if i == n + 1 then Path else Query;
      var value := if i == n then m.host else if i == n + 1 then m.path else m.query;
      assert MetaLines(m)[i] == KeyLine(f.Key(), value);
      FieldLineKeeps(f, value, st);
    } else {
      KindLineKeeps(m, i);
    }
  }

  lemma FieldLineKeeps(f: Field, value: string, st: Meta)
    requires f.Holds(st, value) && IsField(value)
    ensures IsLine(KeyLine(f.Key(), value)) && KeyLine(f.Key(), value) != "headers:"
    ensures ParseMetaLine(KeyLine(f.Key(), value), st) == Ok(st)
  {
    FieldKeys(f);
    SetSame(f, st, value);
    LineKeeps(f.Key(), value, st);
  }

  lemma KindLineKeeps(m: Message, i: nat)
    requires IsPrintable(m) && i < |KindLines(m)|
    ensures IsLine(KindLines(m)[i]) && KindLines(m)[i] != "headers:"
    ensures ParseMetaLine(KindLines(m)[i], InitialMeta(Some(m))) == Ok(InitialMeta(Some(m)))
  {
    var st := InitialMeta(Some(m));
    if i == 0 {
      KindLineIs(m);
      SetSameKind(st);
      KindNames();
      LineKeeps("kind", if m.kind.Request? then "request" else "response", st);
    } else if m.kind.Response? {
      SetSameStatus(st);
      LineKeeps("status", StatusText(m.status), st);
    } else {
      FieldLineKeeps(if i == 1 then Method else Scheme, (if i == 1 then m.verb else m.scheme).GetOr(""), st);
    }
  }

  lemma KindNames()
    ensures IsField("request") && IsField("response")
  {
  }

  lemma KindLineIs(m: Message)
    ensures KindLines(m)[0] == KeyLine("kind", if m.kind.Request? then "request" else "response")
  {
    assert KeyLine("kind", "request") == "kind: request";
    assert KeyLine("kind", "response") == "kind: response";
  }

  lemma {:induction false} ParseMetaKeeps(lines: seq<string>, st: Meta)
    requires forall l :: l in lines ==> ParseMetaLine(l, st) == Ok(st)
    ensures ParseMeta(lines, st) == Ok(st)
  {
    if lines != [] {
      assert lines[0] in lines;
      ParseMetaKeeps(lines[1..], st);
    }
  }

  lemma {:induction false} HeaderLinesParse(headers: seq<Header>)
    requires forall h :: h in headers ==> IsHeader(h)
    ensures ParseHeaders(HeaderLines(headers)) == Ok(headers)
    ensures forall l :: l in HeaderLines(headers) ==> IsLine(l) && l != "body:"
  {
    if headers != [] {
      var h := headers[0];
      assert h in headers;
      KeyLineParses(h.name, h.value);
      TrimOfTrimmed(h.name);
      assert HeaderLines(headers) == [KeyLine(h.name, h.value)] + HeaderLines(headers[1..]);
      HeaderLinesParse(headers[1..]);
      assert headers == [h] + headers[1..];
      KeyLineIsNotMarker(h.name, h.value, "body");
      assert "body" + ":" == "body:";
    }
  }

  /** The marker after printed lines is found right behind them. */
  lemma MarkerAfterLines(ls: seq<string>, w: string, rest: string)
    requires w != "" && '\n' !in w
    requires forall l :: l in ls ==> '\n' !in l && l != w
    ensures Find(Unlines(ls) + ("\n" + w + "\n") + rest, "\n" + w + "\n") == Some(|Unlines(ls)|)
  {
    var marker := "\n" + w + "\n";
    var tail := marker + rest;
    assert Unlines(ls) + marker + rest == Unlines(ls) + tail;
    assert tail[0] == '\n' && (w + "\n")[0] == w[0];
    assert w[0] in w;
    forall j: nat | j < |Unlines(ls)| ensures !OccursAt(Unlines(ls) + tail, marker, j) {
      MarkerNotInside(ls, w, tail, j);
    }
    OccursInTail(Unlines(ls), tail, marker, 0);
    assert OccursAt(tail, marker, 0);
  }

  lemma SectionsOfLines(ls: seq<string>, hs: seq<string>, body: string)
    requires forall l :: l in ls ==> '\n' !in l && l != "headers:"
    requires forall l :: l in hs ==> '\n' !in l && l != "body:"
    ensures SplitSections(Unlines(ls) + HEADERS_MARKER + (Unlines(hs) + BODY_MARKER + body)) ==
            Sections(Unlines(ls), Unlines(hs), body)
  {
    hide Unlines, Find;
    var after := Unlines(hs) + BODY_MARKER + body;
    assert "\n" + "headers:" + "\n" == HEADERS_MARKER && "\n" + "body:" + "\n" == BODY_MARKER;
    MarkerAfterLines(ls, "headers:", after);
    MarkerAfterLines(hs, "body:", body);
    SliceParts(Unlines(ls), HEADERS_MARKER, after);
    SliceParts(Unlines(hs), BODY_MARKER, body);
  }

  lemma SectionsOfEditText(m: Message)
    requires IsPrintable(m)
    ensures SplitSections(EditText(m)) ==
            Sections(Unlines(MetaLines(m)), Unlines(HeaderLines(m.headers)), BodyBlock(m.body))
  {
    forall l | l in MetaLines(m) ensures '\n' !in l && l != "headers:" {
      var i :| 0 <= i < |MetaLines(m)| && MetaLines(m)[i] == l;
      MetaLineKeeps(m, i);
    }
    HeaderLinesParse(m.headers);
    SectionsOfLines(MetaLines(m), HeaderLines(m.headers), BodyBlock(m.body));
  }

  lemma SliceParts(a: string, b: string, c: string)
    ensures (a + b + c)[..|a|] == a && (a + b + c)[|a| + |b|..] == c
  {
  }

  lemma BodyKept(m: Message)
    ensures ParseBody(BodyBlock(m.body), Some(m), m.BodyContentType()) == m.body
  {
    match m.body
    case TextBody(text, _) =>
      if !EndsWith(text, "\n") {
        assert text <= text + "\n" && EndsWith(text + "\n", "\n");
      }
    case _ =>
  }

  lemma PrintableComesBack(m: Message)
    requires IsPrintable(m)
    ensures Parse(EditText(m), Some(m)) == Ok(m)
  {
    SectionsOfEditText(m);
    forall l | l in MetaLines(m)
      ensures IsLine(l) && ParseMetaLine(l, InitialMeta(Some(m))) == Ok(InitialMeta(Some(m)))
    {
      var i :| 0 <= i < |MetaLines(m)| && MetaLines(m)[i] == l;
      MetaLineKeeps(m, i);
    }
    LinesOfAll(MetaLines(m));
    ParseMetaKeeps(MetaLines(m), InitialMeta(Some(m)));
    HeaderLinesParse(m.headers);
    LinesOfAll(HeaderLines(m.headers));
    BodyKept(m);
  }

  lemma LinesOfAll(ls: seq<string>)
    requires forall l :: l in ls ==> IsLine(l)
    ensures Lines(Unlines(ls)) == ls
  {
    LinesOfUnlines(ls, "");
    assert Unlines(ls) + "" == Unlines(ls);
    assert ls + Lines("") == ls;
  }

  // ----- printing one message and parsing it as an edit of another

  /** Everything of the text but the body. */
  function HeadText(m: Message): string {
    Unlines(MetaLines(m)) + HEADERS_MARKER + (Unlines(HeaderLines(m.headers)) + BODY_MARKER)
  }

  lemma EditTextParts(m: Message)
    ensures EditText(m) == HeadText(m) + BodyBlock(m.body)
  {
    SeqAssoc(Unlines(HeaderLines(m.headers)), BODY_MARKER, BodyBlock(m.body));
    SeqAssoc(Unlines(MetaLines(m)) + HEADERS_MARKER, Unlines(HeaderLines(m.headers)) + BODY_MARKER, BodyBlock(m.body));
  }

  lemma SectionsOfHead(m: Message, body: string)
    requires IsPrintable(m)
    ensures SplitSections(HeadText(m) + body) == Sections(Unlines(MetaLines(m)), Unlines(HeaderLines(m.headers)), body)
  {
    forall l | l in MetaLines(m) ensures '\n' !in l && l != "headers:" {
      var i :| 0 <= i < |MetaLines(m)| && MetaLines(m)[i] == l;
      MetaLineKeeps(m, i);
    }
    HeaderLinesParse(m.headers);
    SectionsOfLines(MetaLines(m), HeaderLines(m.headers), body);
    SeqAssoc(Unlines(HeaderLines(m.headers)), BODY_MARKER, body);
    SeqAssoc(Unlines(MetaLines(m)) + HEADERS_MARKER, Unlines(HeaderLines(m.headers)) + BODY_MARKER, body);
  }

  lemma LineSets(key: string, value: string, st: Meta)
    requires IsKey(key) && IsField(value)
    ensures ParseMetaLine(KeyLine(key, value), st) == SetMeta(st, key, value)
  {
    hide SetMeta;
    KeyLineParses(key, value);
    TrimOfTrimmed(key);
  }

  lemma FieldSets(f: Field, value: string, st: Meta, next: Meta)
    requires IsField(value) && SetMeta(st, f.Key(), value) == Ok(next)
    ensures ParseMetaLine(KeyLine(f.Key(), value), st) == Ok(next)
  {
    FieldKeys(f);
    LineSets(f.Key(), value, st);
  }

  lemma ParseMetaStep(line: string, rest: seq<string>, st: Meta, next: Meta)
    requires ParseMetaLine(line, st) == Ok(next)
    ensures ParseMeta([line] + rest, st) == ParseMeta(rest, next)
  {
    assert ([line] + rest)[1..] == rest;
  }

  lemma SetsKind(st: Meta, kind: Kind)
    ensures IsKey("kind")
    ensures SetMeta(st, "kind", if kind.Request? then "request" else "response") == Ok(st.(kind := kind))
  {
  }

  lemma SetsStatus(st: Meta, status: Option<U16>)
    ensures IsKey("status") && IsField(StatusText(status))
    ensures SetMeta(st, "status", StatusText(status)) == Ok(st.(status := status))
  {
    if status.Some? { DecimalIsField(status.value); }
  }

  lemma SetsText(st: Meta, value: string)
    ensures SetMeta(st, Method.Key(), value) == Ok(st.(verb := EmptyToNone(value)))
    ensures SetMeta(st, Scheme.Key(), value) == Ok(st.(scheme := EmptyToNone(value)))
    ensures SetMeta(st, Host.Key(), value) == Ok(st.(host := value))
    ensures SetMeta(st, Path.Key(), value) == Ok(st.(path := value))
    ensures SetMeta(st, Query.Key(), value) == Ok(st.(query := value))
  {
  }

  /** What the printed lines of a message make of the state they are read into. */
  function MetaOf(m: Message, st: Meta): Meta {
    var own := st.(kind := m.kind, host := m.host, path := m.path, query := m.query);
    match m.kind
    case Request => own.(verb := m.verb, scheme := m.scheme)
    case Response => own.(status := m.status)
  }

  lemma RequestLinesSet(m: Message, rest: seq<string>, st: Meta)
    requires m.kind.Request? && IsOptionalField(m.verb) && IsOptionalField(m.scheme)
    ensures var verb, scheme := KeyLine("method", m.verb.GetOr("")), KeyLine("scheme", m.scheme.GetOr(""));
      ParseMeta([verb] + ([scheme] + rest), st) == ParseMeta(rest, st.(verb := m.verb, scheme := m.scheme))
  {
    hide ParseMeta, ParseMetaLine, SetMeta, KeyLine, IsField;
    var verb, scheme := m.verb.GetOr(""), m.scheme.GetOr("");
    EmptyIsField();
    var next := st.(verb := m.verb);
    SetsText(st, verb);
    FieldSets(Method, verb, st, next);
    SetsText(next, scheme);
    FieldSets(Scheme, scheme, next, next.(scheme := m.scheme));
    ParseMetaStep(KeyLine("method", verb), [KeyLine("scheme", scheme)] + rest, st, next);
    ParseMetaStep(KeyLine("scheme", scheme), rest, next, next.(scheme := m.scheme));
  }

  lemma EmptyIsField()
    ensures IsField("")
  {
  }

  lemma ResponseLinesSet(m: Message, rest: seq<string>, st: Meta)
    ensures ParseMeta([KeyLine("status", StatusText(m.status))] + rest, st) == ParseMeta(rest, st.(status := m.status))
  {
    hide ParseMeta, ParseMetaLine, SetMeta, KeyLine, StatusText;
    SetsStatus(st, m.status);
    LineSets("status", StatusText(m.status), st);
    ParseMetaStep(KeyLine("status", StatusText(m.status)), rest, st, st.(status := m.status));
  }

  lemma KindLinesSet(m: Message, rest: seq<string>, st: Meta)
    requires IsPrintable(m)
    ensures ParseMeta(KindLines(m) + rest, st) ==
            ParseMeta(rest, MetaOf(m, st).(host := st.host, path := st.path, query := st.query))
  {
    hide ParseMeta, ParseMetaLine, SetMeta, KeyLine, IsField, StatusText;
    KindLineIs(m);
    KindNames();
    SetsKind(st, m.kind);
    var kind := KeyLine("kind", if m.kind.Request? then "request" else "response");
    LineSets("kind", if m.kind.Request? then "request" else "response", st);
    var first := st.(kind := m.kind);
    match m.kind {
      case Request =>
        var verb, scheme := KeyLine("method", m.verb.GetOr("")), KeyLine("scheme", m.scheme.GetOr(""));
        assert KindLines(m) + rest == [kind] + ([verb] + ([scheme] + rest));
        ParseMetaStep(kind, [verb] + ([scheme] + rest), st, first);
        RequestLinesSet(m, rest, first);
      case Response =>
        var status := KeyLine("status", StatusText(m.status));
        assert KindLines(m) + rest == [kind] + ([status] + rest);
        ParseMetaStep(kind, [status] + rest, st, first);
        ResponseLinesSet(m, rest, first);
    }
  }

  lemma MetaLinesSet(m: Message, st: Meta)
    requires IsPrintable(m)
    ensures ParseMeta(MetaLines(m), st) == Ok(MetaOf(m, st))
  {
    hide ParseMeta, ParseMetaLine, SetMeta, KeyLine, KindLines;
    var host, path, query := KeyLine("host", m.host), KeyLine("path", m.path), KeyLine("query", m.query);
    KindLinesSet(m, [host, path, query], st);
    var a := MetaOf(m, st).(host := st.host, path := st.path, query := st.query);
    var b := a.(host := m.host);
    var c := b.(path := m.path);
    SetsText(a, m.host);
    FieldSets(Host, m.host, a, b);
    SetsText(b, m.path);
    FieldSets(Path, m.path, b, c);
    SetsText(c, m.query);
    FieldSets(Query, m.query, c, c.(query := m.query));
    assert [host, path, query] == [host] + ([path] + ([query] + []));
    ParseMetaStep(host, [path] + ([query] + []), a, b);
    ParseMetaStep(path, [query] + [], b, c);
    ParseMetaStep(query, [], c, c.(query := m.query));
    NothingToParse(c.(query := m.query));
  }

  lemma NothingToParse(st: Meta)
    ensures ParseMeta([], st) == Ok(st)
  {
  }

  /** A text body that was printed with a line feed added is taken back without it. */
  predicate IsOnlyPrinted(original: string, body: string) {
    (original == "" || original[|original| - 1] != '\n') && body == original + "\n"
  }

  /** What typing `body` behind the body marker means for an edit of the original. */
  ghost predicate IsBodyFor(original: Option<Message>, body: string, parsed: Body) {
    match original
    case None => parsed == if body == "" then EmptyBody else TextBody(body, None)
    case Some(o) =>
      match o.body
      case BinaryBody(_, _) => parsed == o.body
      case TextBody(text, contentType) =>
        parsed == TextBody(if IsOnlyPrinted(text, body) then text else body, contentType)
      case EmptyBody => parsed == if body == "" then EmptyBody else TextBody(body, None)
  }

  lemma BodyIsFor(original: Option<Message>, body: string)
    ensures IsBodyFor(original, body, ParseBody(body, original, InitialMeta(original).contentType))
  {
    if original.Some? && original.value.body.TextBody? {
      var text := original.value.body.text;
      if text <= body && |body| == |text| + 1 && EndsWith(body, "\n") {
        assert body == text + body[|text|..] && body[|text|..] == "\n";
      }
      if IsOnlyPrinted(text, body) {
        assert body[|body| - 1..] == "\n";
      }
    }
  }

  /** What an edit says: the printed fields of a message and any body typed below them, read against
      any original or none. What is not printed comes from the original. */
  lemma EditedTextParses(edited: Message, original: Option<Message>, body: string)
    requires IsPrintable(edited)
    ensures var r := Parse(HeadText(edited) + body, original);
      && r.Ok?
      && r.value.kind == edited.kind
      && r.value.host == edited.host && r.value.path == edited.path && r.value.query == edited.query
      && r.value.headers == edited.headers
      && r.value.verb ==
         (if edited.kind.Request? then edited.verb else if original.Some? then original.value.verb else None)
      && r.value.scheme ==
         (if edited.kind.Request? then edited.scheme else if original.Some? then original.value.scheme else None)
      && r.value.status ==
         (if edited.kind.Response? then edited.status else if original.Some? then original.value.status else None)
      && IsBodyFor(original, body, r.value.body)
  {
    hide ParseMeta, ParseHeaders, ParseBody, IsBodyFor, HeadText, MetaLines;
    SectionsOfHead(edited, body);
    forall l | l in MetaLines(edited) ensures IsLine(l) {
      var i :| 0 <= i < |MetaLines(edited)| && MetaLines(edited)[i] == l;
      MetaLineKeeps(edited, i);
    }
    LinesOfAll(MetaLines(edited));
    MetaLinesSet(edited, InitialMeta(original));
    HeaderLinesParse(edited.headers);
    LinesOfAll(HeaderLines(edited.headers));
    BodyIsFor(original, body);
  }

  /** The text a body is printed as. */
  ghost predicate IsPrintedBody(body: Body, printed: string) {
    match body
    case TextBody(text, _) => printed == if text != "" && text[|text| - 1] == '\n' then text else text + "\n"
    case EmptyBody => printed == ""
    case BinaryBody(n, contentType) =>
      printed == "# binary body is not editable\n" + "# bytes_len: " + Decimal(n) + "\n"
                 + match contentType case None => "" case Some(c) => "# content_type: " + c + "\n"
  }

  /** Printing one message and reading it as an edit of another, or of none, gives its fields, and
      its body as far as the original lets a body be edited. */
  lemma EditedMessageParses(edited: Message, original: Option<Message>) returns (printed: string)
    requires IsPrintable(edited)
    ensures IsPrintedBody(edited.body, printed)
    ensures var r := Parse(EditText(edited), original);
      && r.Ok?
      && r.value.kind == edited.kind
      && r.value.host == edited.host && r.value.path == edited.path && r.value.query == edited.query
      && r.value.headers == edited.headers
      && (edited.kind.Request? ==> r.value.verb == edited.verb && r.value.scheme == edited.scheme)
      && (edited.kind.Response? ==> r.value.status == edited.status)
      && IsBodyFor(original, printed, r.value.body)
  {
    hide Parse, HeadText, EditText, IsBodyFor;
    printed := BodyBlock(edited.body);
    EditTextParts(edited);
    EditedTextParses(edited, original, printed);
    if edited.body.TextBody? && edited.body.text != "" {
      assert edited.body.text[|edited.body.text| - 1..] == [edited.body.text[|edited.body.text| - 1]];
    }
  }

  // ----- only printable messages come back

  lemma TrimmedPart(s: string)
    requires '\n' !in s
    ensures IsField(Trim(s))
  {
    TrimIsTrimmed(s);
  }

  lemma SplitPieces(s: string, c: char)
    requires SplitOnce(s, c).Some?
    ensures c !in SplitOnce(s, c).value.0
    ensures forall x :: x in SplitOnce(s, c).value.0 || x in SplitOnce(s, c).value.1 ==> x in s
  {
  }

  lemma ParsedHeaderIsHeader(line: string)
    requires '\n' !in line && ParseHeaderLine(line).Ok?
    ensures forall h :: h in ParseHeaderLine(line).value ==> IsHeader(h)
  {
    TrimIsTrimmed(line);
    var t := Trim(line);
    if !IsSkipped(t) {
      SplitPieces(t, ':');
      var kv := SplitOnce(t, ':').value;
      TrimIsTrimmed(kv.0);
      TrimIsTrimmed(kv.1);
      if Trim(kv.0) != "" {
        assert kv.0[0] == t[0];
        assert TrimStart(kv.0) == kv.0;
        var k := TrimEndShape(kv.0);
      }
    }
  }

  lemma {:induction false} ParsedHeadersAreHeaders(lines: seq<string>)
    requires forall l :: l in lines ==> '\n' !in l
    requires ParseHeaders(lines).Ok?
    ensures forall h :: h in ParseHeaders(lines).value ==> IsHeader(h)
  {
    if lines != [] {
      assert lines[0] in lines;
      ParsedHeaderIsHeader(lines[0]);
      ParsedHeadersAreHeaders(lines[1..]);
    }
  }

  /** The key a meta line sets, if it is not skipped. */
  function LineKey(line: string): Option<string> {
    var line := Trim(line);
    if IsSkipped(line) then None
    else match SplitOnce(line, ':')
      case None => None
      case Some(kv) => Some(Lower(Trim(kv.0)))
  }

  lemma SetMetaCleans(f: Field, st: Meta, key: string, value: string)
    requires IsField(value) && SetMeta(st, key, value).Ok?
    requires f.IsClean(st) || key == f.Key()
    ensures f.IsClean(SetMeta(st, key, value).value)
  {
  }

  lemma MetaLineCleans(line: string, st: Meta, f: Field)
    requires '\n' !in line && ParseMetaLine(line, st).Ok?
    requires f.IsClean(st) || LineKey(line) == Some(f.Key())
    ensures f.IsClean(ParseMetaLine(line, st).value)
  {
    TrimIsTrimmed(line);
    var t := Trim(line);
    if !IsSkipped(t) {
      SplitPieces(t, ':');
      var kv := SplitOnce(t, ':').value;
      TrimmedPart(kv.1);
      SetMetaCleans(f, st, Lower(Trim(kv.0)), Trim(kv.1));
    }
  }

  lemma {:induction false} MetaCleans(lines: seq<string>, st: Meta, f: Field)
    requires forall l :: l in lines ==> '\n' !in l
    requires ParseMeta(lines, st).Ok?
    requires f.IsClean(st) || exists l :: l in lines && LineKey(l) == Some(f.Key())
    ensures f.IsClean(ParseMeta(lines, st).value)
  {
    if lines != [] {
      assert lines[0] in lines;
      var next := ParseMetaLine(lines[0], st).value;
      if f.IsClean(st) || LineKey(lines[0]) == Some(f.Key()) {
        MetaLineCleans(lines[0], st, f);
      } else {
        var l :| l in lines && LineKey(l) == Some(f.Key());
        assert l in lines[1..];
      }
      MetaCleans(lines[1..], next, f);
    }
  }

  /** A line that starts with a key sets that key, however it goes on. */
  lemma KeyOfLine(key: string, rest: string)
    requires IsKey(key)
    ensures LineKey(key + ":" + rest) == Some(key)
  {
    var line := key + [':'] + rest;
    var k := TrimEndShape(line);
    assert TrimStart(line) == line;
    assert !IsWhitespace(line[|key|]);
    assert k > |key|;
    assert Trim(line) == key + [':'] + rest[..k - |key| - 1];
    IndexAfter(key, ':', rest[..k - |key| - 1]);
    TrimOfTrimmed(key);
  }

  /** No "\nheaders:\n" starts in clean lines or in the key behind them. */
  lemma NoMarkerBeforeKey(done: seq<string>, key: string, rest: string, j: nat)
    requires IsKey(key)
    requires forall l :: l in done ==> IsLine(l) && l != "headers:"
    requires j < |Unlines(done)| + |key| + 2
    ensures !OccursAt(Unlines(done) + KeyLine(key, rest), HEADERS_MARKER, j)
  {
    var n := |Unlines(done)|;
    var text := Unlines(done) + KeyLine(key, rest);
    assert "\n" + "headers:" + "\n" == HEADERS_MARKER;
    if j < n {
      KeyLineIsNotMarker(key, rest, "headers");
      assert "headers" + ":" + "\n" == "headers:" + "\n";
      MarkerNotInside(done, "headers:", KeyLine(key, rest), j);
    } else {
      assert text[j] == (key + ": ")[j - n];
      assert j < n + |key| ==> text[j] == key[j - n] && key[j - n] in key;
      assert text[j] != '\n';
      if OccursAt(text, HEADERS_MARKER, j) {
        OccursMeans(text, HEADERS_MARKER, j, 0);
      }
    }
  }

  lemma MetaEnd(text: string, n: nat) returns (end: nat)
    requires n <= |text|
    requires forall j: nat :: j < n ==> !OccursAt(text, HEADERS_MARKER, j)
    ensures n <= end <= |text| && SplitSections(text).meta == text[..end]
  {
    end := match Find(text, HEADERS_MARKER) case None => |text| case Some(i) => i;
    assert text[..|text|] == text;
  }

  lemma LinesHaveKey(done: seq<string>, key: string, after: string) returns (l: string)
    requires IsKey(key)
    requires forall l :: l in done ==> IsLine(l)
    ensures l in Lines(Unlines(done) + (key + ": " + after)) && LineKey(l) == Some(key)
  {
    var head := key + ": ";
    LinesOfUnlines(done, head + after);
    FirstLineStarts(head, after);
    l := Lines(head + after)[0];
    assert (key + ":") + l[|key| + 1..] == l by {
      assert head[..|key| + 1] == key + ":";
      assert l[..|key| + 1] == head[..|key| + 1];
    }
    KeyOfLine(key, l[|key| + 1..]);
  }

  /** Text that starts with clean lines and then "key: " has a line for that key in its meta
      section, whatever follows. */
  lemma MetaHasKey(done: seq<string>, key: string, rest: string)
    requires IsKey(key)
    requires forall l :: l in done ==> IsLine(l) && l != "headers:"
    ensures exists l :: l in Lines(SplitSections(Unlines(done) + KeyLine(key, rest)).meta) && LineKey(l) == Some(key)
  {
    hide Lines, LineKey, SplitSections, OccursAt, Unlines, IsLine;
    var text := Unlines(done) + KeyLine(key, rest);
    var n := |Unlines(done)| + |key| + 2;
    forall j: nat | j < n ensures !OccursAt(text, HEADERS_MARKER, j) {
      NoMarkerBeforeKey(done, key, rest, j);
    }
    var end := MetaEnd(text, n);
    PrefixOf(Unlines(done), key + ": ", rest, end);
    var l := LinesHaveKey(done, key, rest[..end - n]);
  }

  lemma PrefixOf(a: string, b: string, c: string, end: nat)
    requires |a| + |b| <= end <= |a| + |b| + |c|
    ensures (a + (b + c))[..end] == a + (b + c[..end - |a| - |b|])
  {
  }

  lemma FirstLineStarts(head: string, after: string)
    requires head != "" && '\n' !in head && '\r' !in head
    ensures Lines(head + after) != [] && head <= Lines(head + after)[0]
  {
    var s := head + after;
    var l := match IndexOf(s, '\n') case None => s case Some(i) => s[..i];
    assert |l| >= |head|;
    assert head <= StripCr(l);
  }

  lemma EditTextFrom(m: Message, i: nat, key: string, value: string) returns (rest: string)
    requires i < |MetaLines(m)| && MetaLines(m)[i] == KeyLine(key, value)
    ensures EditText(m) == Unlines(MetaLines(m)[..i]) + KeyLine(key, rest)
  {
    var ls := MetaLines(m);
    var tail := HEADERS_MARKER + (Unlines(HeaderLines(m.headers)) + BODY_MARKER + BodyBlock(m.body));
    rest := value + ("\n" + Unlines(ls[i + 1..]) + tail);
    assert ls == ls[..i] + ls[i..];
    UnlinesConcat(ls[..i], ls[i..]);
    assert ls[i..][1..] == ls[i + 1..];
    assert Unlines(ls[i..]) == KeyLine(key, value) + "\n" + Unlines(ls[i + 1..]);
    Regroup(Unlines(ls[..i]), key + ": ", value, "\n", Unlines(ls[i + 1..]), tail);
    assert EditText(m) == Unlines(ls) + tail by {
      Regroup(Unlines(ls), HEADERS_MARKER, Unlines(HeaderLines(m.headers)) + BODY_MARKER + BodyBlock(m.body),
              "", "", "");
    }
  }

  lemma Regroup(a: string, b: string, c: string, d: string, e: string, f: string)
    ensures a + (b + c + d + e) + f == a + (b + (c + (d + e + f)))
    ensures a + b + c == a + (b + c)
  {
  }

  /** If the message comes back, the field printed behind clean lines is clean. */
  lemma FieldIsClean(m: Message, i: nat, f: Field, value: string)
    requires i < |MetaLines(m)| && MetaLines(m)[i] == KeyLine(f.Key(), value)
    requires forall j :: 0 <= j < i ==> IsLine(MetaLines(m)[j]) && MetaLines(m)[j] != "headers:"
    ensures Parse(EditText(m), Some(m)) == Ok(m) ==> f.IsClean(InitialMeta(Some(m)))
  {
    FieldKeys(f);
    var rest := EditTextFrom(m, i, f.Key(), value);
    MetaHasKey(MetaLines(m)[..i], f.Key(), rest);
    var meta := SplitSections(EditText(m)).meta;
    LinesAreSingle(meta);
    if Parse(EditText(m), Some(m)) == Ok(m) {
      MetaCleans(Lines(meta), InitialMeta(Some(m)), f);
    }
  }

  lemma CleanKeyLine(key: string, value: string)
    requires IsKey(key) && IsField(value)
    ensures IsLine(KeyLine(key, value)) && KeyLine(key, value) != "headers:"
  {
    KeyLineParses(key, value);
    KeyLineIsNotMarker(key, value, "headers");
    assert "headers" + ":" == "headers:";
  }

  predicate AreKindLinesClean(m: Message) {
    && (m.kind.Request? ==> IsOptionalField(m.verb) && IsOptionalField(m.scheme))
    && forall j :: 0 <= j < |KindLines(m)| ==> IsLine(KindLines(m)[j]) && KindLines(m)[j] != "headers:"
  }

  lemma KindLinesClean(m: Message)
    ensures Parse(EditText(m), Some(m)) == Ok(m) ==> AreKindLinesClean(m)
  {
    hide Parse, EditText, KeyLine, SetMeta;
    if Parse(EditText(m), Some(m)) == Ok(m) {
      KindLineIs(m);
      KindNames();
      SetSameKind(InitialMeta(Some(m)));
      CleanKeyLine("kind", if m.kind.Request? then "request" else "response");
      match m.kind {
        case Request =>
          FieldIsClean(m, 1, Method, m.verb.GetOr(""));
          FieldKeys(Method);
          CleanKeyLine(Method.Key(), m.verb.GetOr(""));
          FieldIsClean(m, 2, Scheme, m.scheme.GetOr(""));
          FieldKeys(Scheme);
          CleanKeyLine(Scheme.Key(), m.scheme.GetOr(""));
        case Response =>
          SetSameStatus(InitialMeta(Some(m)));
          CleanKeyLine("status", StatusText(m.status));
      }
    }
  }

  lemma ComesBackIsPrintable(m: Message)
    ensures Parse(EditText(m), Some(m)) == Ok(m) ==> IsPrintable(m)
  {
    hide Parse, EditText, SplitSections;
    if Parse(EditText(m), Some(m)) == Ok(m) {
      var n := |KindLines(m)|;
      KindLinesClean(m);
      FieldIsClean(m, n, Host, m.host);
      FieldKeys(Host);
      CleanKeyLine(Host.Key(), m.host);
      FieldIsClean(m, n + 1, Path, m.path);
      FieldKeys(Path);
      CleanKeyLine(Path.Key(), m.path);
      FieldIsClean(m, n + 2, Query, m.query);
      HeadersAreClean(m);
    }
  }

  lemma HeadersAreClean(m: Message)
    ensures Parse(EditText(m), Some(m)) == Ok(m) ==> forall h :: h in m.headers ==> IsHeader(h)
  {
    var headers := SplitSections(EditText(m)).headers;
    LinesAreSingle(headers);
    if Parse(EditText(m), Some(m)) == Ok(m) {
      ParsedHeadersAreHeaders(Lines(headers));
    }
  }

  /** The round trip, with its exact condition. The body is unrestricted. */
  lemma RoundTripExactly(m: Message)
    ensures Parse(EditText(m), Some(m)) == Ok(m) <==> IsPrintable(m)
  {
    if IsPrintable(m) { PrintableComesBack(m); }
    ComesBackIsPrintable(m);
  }
}
