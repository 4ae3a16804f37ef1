/** HTTP messages as editable text (src/filters/editor.rs): the printer and the parser. */
module Messages {
  import opened Wrappers
  import opened Text
  import opened Numbers

  datatype Kind = Request | Response

  datatype Header = Header(name: string, value: string)

  datatype Body =
    | TextBody(text: string, contentType: Option<string>)
    | BinaryBody(bytesLen: nat, contentType: Option<string>)
    | EmptyBody

  datatype Message = Message(
    kind: Kind,
    verb: Option<string>,
    scheme: Option<string>,
    host: string,
    path: string,
    query: string,
    status: Option<U16>,
    headers: seq<Header>,
    body: Body)
  {
    function BodyText(): Option<string> {
      if body.TextBody? then Some(body.text) else None
    }

    function BodyContentType(): Option<string> {
      if body.EmptyBody? then None else body.contentType
    }
  }

  datatype ParseError =
    | InvalidMetaLine(line: string)
    | InvalidKind(value: string)
    | InvalidStatus(value: string)
    | UnknownMetaKey(key: string)
    | InvalidHeaderLine(line: string)
    | EmptyHeaderName

  // ----- the text of a message

  function KeyLine(key: string, value: string): string {
    key + ": " + value
  }

  function StatusText(status: Option<U16>): string {
    match status
    case None => ""
    case Some(n) => Decimal(n)
  }

  /** The lines that only one kind of message has. */
  function KindLines(m: Message): seq<string> {
    match m.kind
    case Request =>
      ["kind: request", KeyLine("method", m.verb.GetOr("")), KeyLine("scheme", m.scheme.GetOr(""))]
    case Response =>
      ["kind: response", KeyLine("status", StatusText(m.status))]
  }

  function MetaLines(m: Message): seq<string> {
    KindLines(m) + [KeyLine("host", m.host), KeyLine("path", m.path), KeyLine("query", m.query)]
  }

  function HeaderLines(headers: seq<Header>): seq<string> {
    seq(|headers|, i requires 0 <= i < |headers| => KeyLine(headers[i].name, headers[i].value))
  }

  function BodyBlock(body: Body): string {
    match body
    case TextBody(text, _) => if EndsWith(text, "\n") then text else text + "\n"
    case BinaryBody(n, contentType) =>
      "# binary body is not editable\n" + "# bytes_len: " + Decimal(n) + "\n"
      + (if contentType.Some? then "# content_type: " + contentType.value + "\n" else "")
    case EmptyBody => ""
  }

  const HEADERS_MARKER := "\nheaders:\n"
  const BODY_MARKER := "\nbody:\n"

  function EditText(m: Message): string {
    Unlines(MetaLines(m)) + HEADERS_MARKER + (Unlines(HeaderLines(m.headers)) + BODY_MARKER + BodyBlock(m.body))
  }

  method ToEditText(m: Message) returns (out: string)
    ensures out == EditText(m)
  {
    out := MetaText(m);
    out := out + "\n";
    out := out + "headers:\n";
    var headers := HeaderText(m.headers);
    out := out + headers;
    out := out + "\n";
    out := out + "body:\n";
    var body := BodyText(m.body);
    out := out + body;
    Assemble(Unlines(MetaLines(m)), headers, body);
  }

  method MetaText(m: Message) returns (out: string)
    ensures out == Unlines(MetaLines(m))
  {
    match m.kind {
      case Request =>
        out := "kind: request" + "\n";
        out := out + KeyLine("method", m.verb.GetOr("")) + "\n";
        out := out + KeyLine("scheme", m.scheme.GetOr("")) + "\n";
      case Response =>
        out := "kind: response" + "\n";
        out := out + KeyLine("status", StatusText(m.status)) + "\n";
    }
    UnlinesOfKind(m);
    ghost var ls := KindLines(m);
    assert out == Unlines(ls);
    out := out + KeyLine("host", m.host) + "\n";
    out := out + KeyLine("path", m.path) + "\n";
    out := out + KeyLine("query", m.query) + "\n";
    UnlinesSnoc(ls, KeyLine("host", m.host));
    UnlinesSnoc(ls + [KeyLine("host", m.host)], KeyLine("path", m.path));
    UnlinesSnoc(ls + [KeyLine("host", m.host)] + [KeyLine("path", m.path)], KeyLine("query", m.query));
    assert ls + [KeyLine("host", m.host)] + [KeyLine("path", m.path)] + [KeyLine("query", m.query)] == MetaLines(m);
  }

  method HeaderText(headers: seq<Header>) returns (out: string)
    ensures out == Unlines(HeaderLines(headers))
  {
    out := "";
    for i := 0 to |headers|
      invariant out == Unlines(HeaderLines(headers[..i]))
    {
      var line := KeyLine(headers[i].name, headers[i].value);
      assert HeaderLines(headers[..i + 1]) == HeaderLines(headers[..i]) + [line];
      UnlinesSnoc(HeaderLines(headers[..i]), line);
      out := out + line + "\n";
    }
    assert headers[..|headers|] == headers;
  }

  method BodyText(body: Body) returns (out: string)
    ensures out == BodyBlock(body)
  {
    out := "";
    match body {
      case TextBody(text, _) =>
        out := text;
        if !EndsWith(text, "\n") {
          out := out + "\n";
        }
      case BinaryBody(n, contentType) =>
        out := "# binary body is not editable\n";
        out := out + "# bytes_len: " + Decimal(n) + "\n";
        if contentType.Some? {
          out := out + "# content_type: " + contentType.value + "\n";
        }
      case EmptyBody =>
    }
  }

  lemma Assemble(meta: string, headers: string, body: string)
    ensures meta + "\n" + "headers:\n" + headers + "\n" + "body:\n" + body ==
            meta + HEADERS_MARKER + (headers + BODY_MARKER + body)
  {
  }

  lemma UnlinesOfKind(m: Message)
    ensures m.kind.Request? ==>
              Unlines(KindLines(m)) ==
              "kind: request" + "\n" + KeyLine("method", m.verb.GetOr("")) + "\n"
              + KeyLine("scheme", m.scheme.GetOr("")) + "\n"
    ensures m.kind.Response? ==>
              Unlines(KindLines(m)) == "kind: response" + "\n" + KeyLine("status", StatusText(m.status)) + "\n"
  {
    var ls := KindLines(m);
    UnlinesSnoc([], ls[0]);
    UnlinesSnoc([ls[0]], ls[1]);
    assert [] + [ls[0]] == [ls[0]] && [ls[0]] + [ls[1]] == [ls[0], ls[1]];
    assert Unlines([]) + ls[0] + "\n" == ls[0] + "\n";
    if m.kind.Request? {
      UnlinesSnoc([ls[0], ls[1]], ls[2]);
      assert [ls[0], ls[1]] + [ls[2]] == ls;
    }
  }

  // ----- parsing it back

  datatype Sections = Sections(meta: string, headers: string, body: string)

  function SplitSections(text: string): Sections {
    match Find(text, HEADERS_MARKER)
    case None => Sections(text, "", "")
    case Some(i) =>
      var afterMeta := text[i + |HEADERS_MARKER|..];
      match Find(afterMeta, BODY_MARKER)
      case None => Sections(text[..i], afterMeta, "")
      case Some(j) => Sections(text[..i], afterMeta[..j], afterMeta[j + |BODY_MARKER|..])
  }

  /** The fields the meta section can set. */
  datatype Meta = Meta(
    kind: Kind,
    verb: Option<string>,
    scheme: Option<string>,
    host: string,
    path: string,
    query: string,
    status: Option<U16>,
    contentType: Option<string>)

  function InitialMeta(original: Option<Message>): Meta {
    match original
    case None => Meta(Request, None, None, "", "/", "", None, None)
    case Some(m) => Meta(m.kind, m.verb, m.scheme, m.host, m.path, m.query, m.status, m.BodyContentType())
  }

  function EmptyToNone(value: string): Option<string> {
    if value == "" then None else Some(value)
  }

  predicate IsSkipped(line: string) {
    line == "" || line[0] == '#'
  }

  function SetMeta(st: Meta, key: string, value: string): Result<Meta, ParseError> {
    if key == "kind" then
      if value == "request" then Ok(st.(kind := Request))
      else if value == "response" then Ok(st.(kind := Response))
      else Err(InvalidKind(value))
    else if key == "method" then Ok(st.(verb := EmptyToNone(value)))
    else if key == "scheme" then Ok(st.(scheme := EmptyToNone(value)))
    else if key == "host" then Ok(st.(host := value))
    else if key == "path" then Ok(st.(path := value))
    else if key == "query" then Ok(st.(query := value))
    else if key == "status" then
      if value == "" then Ok(st.(status := None))
      else match ParseU16(value)
        case Some(n) => Ok(st.(status := Some(n)))
        case None => Err(InvalidStatus(value))
    else if key == "content-type" || key == "content_type" then Ok(st.(contentType := EmptyToNone(value)))
    else Err(UnknownMetaKey(key))
  }

  function ParseMetaLine(line: string, st: Meta): Result<Meta, ParseError> {
    var line := Trim(line);
    if IsSkipped(line) then Ok(st)
    else match SplitOnce(line, ':')
      case None => Err(InvalidMetaLine(line))
      case Some(kv) => SetMeta(st, Lower(Trim(kv.0)), Trim(kv.1))
  }

  function ParseMeta(lines: seq<string>, st: Meta): Result<Meta, ParseError> {
    if lines == [] then Ok(st)
    else match ParseMetaLine(lines[0], st)
      case Err(e) => Err(e)
      case Ok(next) => ParseMeta(lines[1..], next)
  }

  /** The header on one line, or nothing for a blank line or a comment. */
  function ParseHeaderLine(line: string): Result<seq<Header>, ParseError> {
    var line := Trim(line);
    if IsSkipped(line) then Ok([])
    else match SplitOnce(line, ':')
      case None => Err(InvalidHeaderLine(line))
      case Some(kv) => if Trim(kv.0) == "" then Err(EmptyHeaderName) else Ok([Header(Trim(kv.0), Trim(kv.1))])
  }

  function ParseHeaders(lines: seq<string>): Result<seq<Header>, ParseError> {
    if lines == [] then Ok([])
    else match ParseHeaderLine(lines[0])
      case Err(e) => Err(e)
      case Ok(h) => match ParseHeaders(lines[1..])
        case Err(e) => Err(e)
        case Ok(t) => Ok(h + t)
  }

  function ParseBody(body: string, original: Option<Message>, contentType: Option<string>): Body {
    match original
    case None => if body == "" then EmptyBody else TextBody(body, contentType)
    case Some(m) =>
      match m.body
      case BinaryBody(n, ct) => BinaryBody(n, ct)
      case TextBody(text, ct) =>
        var kept := !EndsWith(text, "\n") && |body| == |text| + 1 && text <= body && EndsWith(body, "\n");
        TextBody(if kept then text else body, if contentType.Some? then contentType else ct)
      case EmptyBody => if body == "" then EmptyBody else TextBody(body, contentType)
  }

  function Parse(text: string, original: Option<Message>): Result<Message, ParseError> {
    var sections := SplitSections(text);
    match ParseMeta(Lines(sections.meta), InitialMeta(original))
    case Err(e) => Err(e)
    case Ok(st) =>
      match ParseHeaders(Lines(sections.headers))
      case Err(e) => Err(e)
      case Ok(headers) =>
        Ok(Message(st.kind, st.verb, st.scheme, st.host, st.path, st.query, st.status, headers,
                   ParseBody(sections.body, original, st.contentType)))
  }

  lemma {:induction false} ParseHeadersSnoc(lines: seq<string>, line: string)
    ensures ParseHeaders(lines + [line]) ==
            match ParseHeaders(lines)
            case Err(e) => Err(e)
            case Ok(hs) => match ParseHeaderLine(line) case Err(e) => Err(e) case Ok(h) => Ok(hs + h)
  {
    if lines == [] {
      assert (lines + [line])[1..] == [];
      match ParseHeaderLine(line)
      case Err(_) =>
      case Ok(h) => assert h + [] == h == [] + h;
    } else {
      assert (lines + [line])[1..] == lines[1..] + [line];
      ParseHeadersSnoc(lines[1..], line);
      match (ParseHeaderLine(lines[0]), ParseHeaders(lines[1..]), ParseHeaderLine(line))
      case (Ok(a), Ok(b), Ok(c)) => assert a + (b + c) == a + b + c;
      case _ =>
    }
  }

  lemma {:induction false} ParseHeadersFails(lines: seq<string>, more: seq<string>)
    requires ParseHeaders(lines).Err?
    ensures ParseHeaders(lines + more) == ParseHeaders(lines)
  {
    assert (lines + more)[1..] == lines[1..] + more;
    if ParseHeaderLine(lines[0]).Ok? {
      ParseHeadersFails(lines[1..], more);
    }
  }

  method ParseEditHeaders(text: string) returns (r: Result<seq<Header>, ParseError>)
    ensures r == ParseHeaders(Lines(text))
  {
    var lines := Lines(text);
    var headers := [];
    for i := 0 to |lines|
      invariant ParseHeaders(lines[..i]) == Ok(headers)
    {
      ParseHeadersSnoc(lines[..i], lines[i]);
      assert lines[..i + 1] == lines[..i] + [lines[i]];
      assert lines == lines[..i + 1] + lines[i + 1..];
      var line := Trim(lines[i]);
      if IsSkipped(line) {
        assert headers + [] == headers;
        continue;
      }
      var split := SplitOnce(line, ':');
      if split.None? {
        ParseHeadersFails(lines[..i + 1], lines[i + 1..]);
        return Err(InvalidHeaderLine(line));
      }
      var name := Trim(split.value.0);
      var value := Trim(split.value.1);
      if name == "" {
        ParseHeadersFails(lines[..i + 1], lines[i + 1..]);
        return Err(EmptyHeaderName);
      }
      headers := headers + [Header(name, value)];
    }
    assert lines[..|lines|] == lines;
    r := Ok(headers);
  }

  method ParseEditText(text: string, original: Option<Message>) returns (r: Result<Message, ParseError>)
    ensures r == Parse(text, original)
  {
    var sections := SplitSections(text);
    var st := InitialMeta(original);
    var lines := Lines(sections.meta);
    ghost var all := ParseMeta(lines, st);
    for i := 0 to |lines|
      invariant all == ParseMeta(lines[i..], st)
    {
      var line := Trim(lines[i]);
      if IsSkipped(line) {
        continue;
      }
      var split := SplitOnce(line, ':');
      if split.None? {
        return Err(InvalidMetaLine(line));
      }
      var key := Lower(Trim(split.value.0));
      var value := Trim(split.value.1);
      var next := SetMeta(st, key, value);
      if next.Err? {
        return Err(next.error);
      }
      st := next.value;
    }
    var headers := ParseEditHeaders(sections.headers);
    if headers.Err? {
      return Err(headers.error);
    }
    r := Ok(Message(st.kind, st.verb, st.scheme, st.host, st.path, st.query, st.status, headers.value,
                    ParseBody(sections.body, original, st.contentType)));
  }
}
