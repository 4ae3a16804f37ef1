/** What an edited text means, whatever was typed: which lines are refused and which of several lines
    for one field counts (src/filters/editor.rs). */
module EditSyntax {
  import opened Wrappers
  import opened Text
  import opened Numbers
  import opened Messages
  import opened EditRoundTrip

  // ----- one line

  /** Blank lines and comments say nothing. */
  predicate SaysSomething(line: string) {
    Trim(line) != "" && Trim(line)[0] != '#'
  }

  /** The line is split at its first colon. */
  ghost predicate Splits(line: string, left: string, right: string) {
    SaysSomething(line) && Trim(line) == left + [':'] + right && ':' !in left
  }

  ghost predicate Sets(line: string, key: string, value: string) {
    exists left, right :: Splits(line, left, right) && Lower(Trim(left)) == key && Trim(right) == value
  }

  datatype MetaField =
    | KindField
    | VerbField
    | SchemeField
    | HostField
    | PathField
    | QueryField
    | StatusField
    | TypeField
  {
    predicate IsNamed(key: string) {
      match this
      case KindField => key == "kind"
      case VerbField => key == "method"
      case SchemeField => key == "scheme"
      case HostField => key == "host"
      case PathField => key == "path"
      case QueryField => key == "query"
      case StatusField => key == "status"
      case TypeField => key == "content-type" || key == "content_type"
    }

    /** The field holds what the value says; an empty value clears an optional field. */
    predicate Shows(st: Meta, value: string) {
      match this
      case KindField => if value == "request" then st.kind == Request else value == "response" && st.kind == Response
      case VerbField => st.verb == if value == "" then None else Some(value)
      case SchemeField => st.scheme == if value == "" then None else Some(value)
      case HostField => st.host == value
      case PathField => st.path == value
      case QueryField => st.query == value
      case StatusField => if value == "" then st.status == None else st.status.Some? && st.status == ParseU16(value)
      case TypeField => st.contentType == if value == "" then None else Some(value)
    }

    predicate IsKept(before: Meta, after: Meta) {
      match this
      case KindField => after.kind == before.kind
      case VerbField => after.verb == before.verb
      case SchemeField => after.scheme == before.scheme
      case HostField => after.host == before.host
      case PathField => after.path == before.path
      case QueryField => after.query == before.query
      case StatusField => after.status == before.status
      case TypeField => after.contentType == before.contentType
    }
  }

  predicate IsUnknown(key: string) {
    forall f: MetaField :: !f.IsNamed(key)
  }

  /** What is wrong with a meta line, if anything. */
  ghost predicate IsMetaProblem(line: string, e: ParseError) {
    match e
    case InvalidMetaLine(t) => SaysSomething(line) && t == Trim(line) && ':' !in t
    case InvalidKind(value) => Sets(line, "kind", value) && value != "request" && value != "response"
    case InvalidStatus(value) => Sets(line, "status", value) && value != "" && ParseU16(value).None?
    case UnknownMetaKey(key) => (exists value :: Sets(line, key, value)) && IsUnknown(key)
    case _ => false
  }

  lemma SplitExactly(line: string, left: string, right: string)
    ensures Splits(line, left, right) <==> SaysSomething(line) && SplitOnce(Trim(line), ':') == Some((left, right))
  {
    var t := Trim(line);
    if SplitOnce(t, ':').Some? {
      var i := IndexOf(t, ':').value;
      assert t == t[..i] + [':'] + t[i + 1..];
    }
    if Splits(line, left, right) {
      IndexAfter(left, ':', right);
    }
  }

  lemma SetMetaOk(f: MetaField, st: Meta, key: string, value: string)
    requires SetMeta(st, key, value).Ok?
    ensures f.IsNamed(key) ==> f.Shows(SetMeta(st, key, value).value, value)
    ensures !f.IsNamed(key) ==> f.IsKept(st, SetMeta(st, key, value).value)
  {
  }

  predicate IsRefused(key: string, value: string, e: ParseError) {
    match e
    case InvalidKind(v) => key == "kind" && v == value && value != "request" && value != "response"
    case InvalidStatus(v) => key == "status" && v == value && value != "" && ParseU16(value).None?
    case UnknownMetaKey(k) => k == key && IsUnknown(key)
    case _ => false
  }

  lemma UnknownKeys(key: string)
    ensures IsUnknown(key) <==>
      && key != "kind" && key != "method" && key != "scheme" && key != "host" && key != "path" && key != "query"
      && key != "status" && key != "content-type" && key != "content_type"
  {
    if IsUnknown(key) {
      assert !KindField.IsNamed(key) && !VerbField.IsNamed(key) && !SchemeField.IsNamed(key);
      assert !HostField.IsNamed(key) && !PathField.IsNamed(key) && !QueryField.IsNamed(key);
      assert !StatusField.IsNamed(key) && !TypeField.IsNamed(key);
    }
  }

  lemma SetMetaRefuses(st: Meta, key: string, value: string, e: ParseError)
    ensures SetMeta(st, key, value) == Err(e) <==> IsRefused(key, value, e)
  {
    hide IsUnknown, ParseU16;
    UnknownKeys(key);
  }

  lemma SilentLine(line: string, st: Meta)
    requires !SaysSomething(line)
    ensures ParseMetaLine(line, st) == Ok(st)
    ensures forall key, value :: !Sets(line, key, value)
    ensures forall e :: !IsMetaProblem(line, e)
  {
  }

  lemma UnsplitLine(line: string, st: Meta)
    requires SaysSomething(line) && ':' !in Trim(line)
    ensures ParseMetaLine(line, st) == Err(InvalidMetaLine(Trim(line)))
    ensures forall key, value :: !Sets(line, key, value)
    ensures forall e :: IsMetaProblem(line, e) <==> e == InvalidMetaLine(Trim(line))
  {
    forall left, right ensures !Splits(line, left, right) {
      SplitExactly(line, left, right);
    }
  }

  lemma SettingLine(line: string, st: Meta) returns (k: string, v: string)
    requires SaysSomething(line) && ':' in Trim(line)
    ensures ParseMetaLine(line, st) == SetMeta(st, k, v)
    ensures forall key, value :: Sets(line, key, value) <==> key == k && value == v
    ensures forall e :: IsMetaProblem(line, e) <==> IsRefused(k, v, e)
  {
    hide Trim, SetMeta, IsUnknown, ParseU16, Lower;
    var split := SplitOnce(Trim(line), ':').value;
    k, v := Lower(Trim(split.0)), Trim(split.1);
    forall left, right ensures Splits(line, left, right) <==> left == split.0 && right == split.1 {
      SplitExactly(line, left, right);
    }
    assert Splits(line, split.0, split.1);
    assert Sets(line, k, v);
    forall e ensures IsMetaProblem(line, e) <==> IsRefused(k, v, e) {
      match e
      case InvalidMetaLine(t) => assert ':' !in t ==> t != Trim(line);
      case _ =>
    }
  }

  ghost predicate SetsField(line: string, f: MetaField, value: string) {
    exists key :: Sets(line, key, value) && f.IsNamed(key)
  }

  ghost predicate IsMetaFine(line: string) {
    forall e :: !IsMetaProblem(line, e)
  }

  /** A line is refused for exactly one reason; otherwise it sets the field it names and no other. */
  lemma MetaLineExactly(line: string, st: Meta)
    ensures forall e :: ParseMetaLine(line, st) == Err(e) <==> IsMetaProblem(line, e)
    ensures ParseMetaLine(line, st).Ok? <==> IsMetaFine(line)
    ensures ParseMetaLine(line, st).Ok? ==>
      forall f: MetaField, value :: SetsField(line, f, value) ==> f.Shows(ParseMetaLine(line, st).value, value)
    ensures ParseMetaLine(line, st).Ok? ==>
      forall f: MetaField :: (forall value :: !SetsField(line, f, value)) ==>
        f.IsKept(st, ParseMetaLine(line, st).value)
  {
    hide Trim, SetMeta, IsUnknown, ParseU16, ParseMetaLine, Sets, IsMetaProblem, MetaField.Shows, MetaField.IsKept;
    hide MetaField.IsNamed;
    if !SaysSomething(line) {
      SilentLine(line, st);
      forall f: MetaField ensures f.IsKept(st, st) { NothingChanges(f, st); }
    } else if ':' !in Trim(line) {
      UnsplitLine(line, st);
    } else {
      var k, v := SettingLine(line, st);
      forall e ensures ParseMetaLine(line, st) == Err(e) <==> IsMetaProblem(line, e) {
        SetMetaRefuses(st, k, v, e);
      }
      if SetMeta(st, k, v).Ok? {
        forall f: MetaField
          ensures f.IsNamed(k) ==> f.Shows(SetMeta(st, k, v).value, v)
          ensures !f.IsNamed(k) ==> f.IsKept(st, SetMeta(st, k, v).value)
        {
          SetMetaOk(f, st, k, v);
        }
        forall f: MetaField | f.IsNamed(k) ensures SetsField(line, f, v) {
          assert Sets(line, k, v);
        }
      }
    }
    if ParseMetaLine(line, st).Err? {
      assert ParseMetaLine(line, st) == Err(ParseMetaLine(line, st).error);
    }
  }

  lemma NothingChanges(f: MetaField, st: Meta)
    ensures f.IsKept(st, st)
  {
  }

  // ----- all lines of the meta section

  /** The last line that sets the field sets it to this value. */
  ghost predicate IsLastSetting(lines: seq<string>, f: MetaField, k: int, value: string) {
    && 0 <= k < |lines| && SetsField(lines[k], f, value)
    && forall j, other :: k < j < |lines| ==> !SetsField(lines[j], f, other)
  }

  ghost predicate NeverSet(lines: seq<string>, f: MetaField) {
    forall j, other :: 0 <= j < |lines| ==> !SetsField(lines[j], f, other)
  }

  /** Each field is as its last line says, and fields without a line are as they were. */
  ghost predicate IsMetaOf(lines: seq<string>, before: Meta, after: Meta) {
    && (forall f, k, value :: IsLastSetting(lines, f, k, value) ==> f.Shows(after, value))
    && (forall f: MetaField :: NeverSet(lines, f) ==> f.IsKept(before, after))
  }

  /** Either no line sets the field or one of them is the last to. */
  lemma {:induction false} NoneOrLast(lines: seq<string>, f: MetaField)
    ensures NeverSet(lines, f) || exists k, value :: IsLastSetting(lines, f, k, value)
    decreases |lines|
  {
    hide SetsField;
    if lines != [] {
      var n := |lines| - 1;
      if exists value :: SetsField(lines[n], f, value) {
        var value :| SetsField(lines[n], f, value);
        assert IsLastSetting(lines, f, n, value);
      } else {
        NoneOrLast(lines[..n], f);
        if !NeverSet(lines[..n], f) {
          var k, value :| IsLastSetting(lines[..n], f, k, value);
          assert IsLastSetting(lines, f, k, value);
        }
      }
    }
  }

  lemma ParseMetaSnoc(lines: seq<string>, line: string, st: Meta)
    ensures ParseMeta(lines + [line], st) ==
            match ParseMeta(lines, st) case Err(e) => Err(e) case Ok(next) => ParseMetaLine(line, next)
    decreases |lines|
  {
    hide ParseMetaLine;
    if lines == [] {
      assert ([] + [line])[1..] == [];
    } else {
      assert (lines + [line])[1..] == lines[1..] + [line];
      match ParseMetaLine(lines[0], st)
      case Err(_) =>
      case Ok(next) => ParseMetaSnoc(lines[1..], line, next);
    }
  }

  lemma OneMore(lines: seq<string>, line: string, f: MetaField, before: Meta, last: Meta, after: Meta)
    requires IsMetaOf(lines, before, last)
    requires forall value :: SetsField(line, f, value) ==> f.Shows(after, value)
    requires (forall value :: !SetsField(line, f, value)) ==> f.IsKept(last, after)
    ensures forall k, value :: IsLastSetting(lines + [line], f, k, value) ==> f.Shows(after, value)
    ensures NeverSet(lines + [line], f) ==> f.IsKept(before, after)
  {
    var all, n := lines + [line], |lines|;
    assert all[n] == line;
    hide SetsField;
    forall k, value | IsLastSetting(all, f, k, value) ensures f.Shows(after, value) {
      if k < n {
        forall other ensures !SetsField(line, f, other) { assert !SetsField(all[n], f, other); }
        forall j, other | k < j < n ensures !SetsField(lines[j], f, other) { assert !SetsField(all[j], f, other); }
        assert IsLastSetting(lines, f, k, value);
        assert f.Shows(last, value);
      }
    }
    if NeverSet(all, f) {
      forall other ensures !SetsField(line, f, other) { assert !SetsField(all[n], f, other); }
      forall j, other | 0 <= j < n ensures !SetsField(lines[j], f, other) { assert !SetsField(all[j], f, other); }
      assert NeverSet(lines, f);
    }
  }

  lemma AllMore(lines: seq<string>, line: string, before: Meta, last: Meta, after: Meta)
    requires IsMetaOf(lines, before, last)
    requires forall f: MetaField, value :: SetsField(line, f, value) ==> f.Shows(after, value)
    requires forall f: MetaField :: (forall value :: !SetsField(line, f, value)) ==> f.IsKept(last, after)
    ensures IsMetaOf(lines + [line], before, after)
  {
    hide SetsField, NeverSet, IsLastSetting, MetaField.Shows, MetaField.IsKept;
    forall f: MetaField, k, value | IsLastSetting(lines + [line], f, k, value) ensures f.Shows(after, value) {
      OneMore(lines, line, f, before, last, after);
    }
    forall f: MetaField | NeverSet(lines + [line], f) ensures f.IsKept(before, after) {
      OneMore(lines, line, f, before, last, after);
    }
  }

  lemma NoLines(st: Meta)
    ensures IsMetaOf([], st, st)
  {
  }

  /** Without a problem every line has its say. */
  lemma {:induction false} MetaIsRead(lines: seq<string>, st: Meta)
    requires forall l :: l in lines ==> IsMetaFine(l)
    ensures ParseMeta(lines, st).Ok? && IsMetaOf(lines, st, ParseMeta(lines, st).value)
    decreases |lines|
  {
    hide ParseMetaLine, SetsField, IsMetaFine, IsMetaOf, MetaField.Shows, MetaField.IsKept;
    if lines == [] {
      NoLines(st);
    } else {
      var init, line := lines[..|lines| - 1], lines[|lines| - 1];
      assert lines == init + [line] && line in lines;
      MetaIsRead(init, st);
      ParseMetaSnoc(init, line, st);
      var last := ParseMeta(init, st).value;
      MetaLineExactly(line, last);
      AllMore(init, line, st, last, ParseMetaLine(line, last).value);
    }
  }

  /** The first problem is reported. */
  lemma {:induction false} MetaIsRefused(lines: seq<string>, k: nat, e: ParseError, st: Meta)
    requires k < |lines| && IsMetaProblem(lines[k], e) && forall j :: 0 <= j < k ==> IsMetaFine(lines[j])
    ensures ParseMeta(lines, st) == Err(e)
    decreases k
  {
    hide ParseMetaLine, IsMetaProblem, IsMetaFine;
    MetaLineExactly(lines[0], st);
    if k > 0 {
      assert IsMetaFine(lines[0]);
      MetaIsRefused(lines[1..], k - 1, e, ParseMetaLine(lines[0], st).value);
    }
  }

  // ----- all lines of the headers section

  ghost predicate IsHeaderProblem(line: string, e: ParseError) {
    match e
    case InvalidHeaderLine(t) => SaysSomething(line) && t == Trim(line) && ':' !in t
    case EmptyHeaderName => exists left, right :: Splits(line, left, right) && Trim(left) == ""
    case _ => false
  }

  ghost predicate IsHeaderFine(line: string) {
    forall e :: !IsHeaderProblem(line, e)
  }

  /** The header a line stands for. */
  ghost predicate StandsFor(line: string, h: Header) {
    exists left, right :: Splits(line, left, right) && Trim(left) == h.name && Trim(right) == h.value
  }

  /** The lines that say something stand for the headers, in order: `at` tells which line is which. */
  ghost predicate AreHeadersOf(lines: seq<string>, headers: seq<Header>, at: seq<nat>) {
    && |at| == |headers|
    && (forall i :: 0 <= i < |at| ==> at[i] < |lines| && StandsFor(lines[at[i]], headers[i]))
    && (forall i, j :: 0 <= i < j < |at| ==> at[i] < at[j])
    && (forall k :: 0 <= k < |lines| && SaysSomething(lines[k]) ==> k in at)
  }

  lemma HeaderLineExactly(line: string)
    ensures forall e :: ParseHeaderLine(line) == Err(e) <==> IsHeaderProblem(line, e)
    ensures ParseHeaderLine(line).Ok? <==> IsHeaderFine(line)
    ensures !SaysSomething(line) ==> ParseHeaderLine(line) == Ok([])
    ensures SaysSomething(line) && ParseHeaderLine(line).Ok? ==>
      |ParseHeaderLine(line).value| == 1 && StandsFor(line, ParseHeaderLine(line).value[0])
  {
    hide Trim;
    var t := Trim(line);
    forall left, right
      ensures Splits(line, left, right) <==> SaysSomething(line) && SplitOnce(t, ':') == Some((left, right))
    {
      SplitExactly(line, left, right);
    }
    if SaysSomething(line) && SplitOnce(t, ':').Some? {
      var split := SplitOnce(t, ':').value;
      assert Splits(line, split.0, split.1);
    }
    if ParseHeaderLine(line).Err? {
      assert ParseHeaderLine(line) == Err(ParseHeaderLine(line).error);
    }
  }

  lemma SilentBehind(lines: seq<string>, line: string, headers: seq<Header>, at: seq<nat>)
    requires AreHeadersOf(lines, headers, at) && !SaysSomething(line)
    ensures AreHeadersOf(lines + [line], headers, at)
  {
    hide StandsFor, SaysSomething;
  }

  lemma HeaderBehind(lines: seq<string>, line: string, headers: seq<Header>, h: Header, at: seq<nat>)
    requires AreHeadersOf(lines, headers, at) && StandsFor(line, h)
    ensures AreHeadersOf(lines + [line], headers + [h], at + [|lines|])
  {
    hide StandsFor, SaysSomething;
    var more := at + [|lines|];
    assert more[|at|] == |lines|;
    forall k | 0 <= k < |lines| + 1 && SaysSomething((lines + [line])[k]) ensures k in more {
      if k < |lines| {
        assert SaysSomething(lines[k]);
        var i :| 0 <= i < |at| && at[i] == k;
        assert more[i] == k;
      }
    }
  }

  lemma NoHeaderLines()
    ensures ParseHeaders([]) == Ok([]) && AreHeadersOf([], [], [])
  {
  }

  /** Without a problem the headers are those the lines stand for, in order. */
  lemma {:induction false} HeadersAreRead(lines: seq<string>) returns (at: seq<nat>)
    requires forall l :: l in lines ==> IsHeaderFine(l)
    ensures ParseHeaders(lines).Ok? && AreHeadersOf(lines, ParseHeaders(lines).value, at)
    decreases |lines|
  {
    hide ParseHeaders, ParseHeaderLine, StandsFor, IsHeaderFine, SaysSomething, AreHeadersOf;
    at := [];
    NoHeaderLines();
    if lines != [] {
      var init, line := lines[..|lines| - 1], lines[|lines| - 1];
      assert lines == init + [line] && line in lines;
      at := HeadersAreRead(init);
      ParseHeadersSnoc(init, line);
      HeaderLineExactly(line);
      var headers, own := ParseHeaders(init).value, ParseHeaderLine(line).value;
      if SaysSomething(line) {
        HeaderBehind(init, line, headers, own[0], at);
        assert own == [own[0]];
        at := at + [|init|];
      } else {
        SilentBehind(init, line, headers, at);
        assert headers + [] == headers;
      }
    }
  }

  /** The first problem is reported. */
  lemma {:induction false} HeadersAreRefused(lines: seq<string>, k: nat, e: ParseError)
    requires k < |lines| && IsHeaderProblem(lines[k], e) && forall j :: 0 <= j < k ==> IsHeaderFine(lines[j])
    ensures ParseHeaders(lines) == Err(e)
    decreases k
  {
    hide ParseHeaderLine, IsHeaderProblem, IsHeaderFine;
    HeaderLineExactly(lines[0]);
    if k > 0 {
      assert IsHeaderFine(lines[0]);
      HeadersAreRefused(lines[1..], k - 1, e);
    }
  }

  // ----- the whole text

  /** The body typed as this text, for an edit of the original, with the content type the meta section
      ends up with. A binary body cannot be edited. */
  ghost predicate IsTypedBody(original: Option<Message>, body: string, contentType: Option<string>, parsed: Body) {
    if original.Some? && original.value.body.BinaryBody? then parsed == original.value.body
    else if original.Some? && original.value.body.TextBody? then
      var text := original.value.body.text;
      && parsed.TextBody? && parsed.text == (if IsOnlyPrinted(text, body) then text else body)
      && parsed.contentType == (if contentType.Some? then contentType else original.value.body.contentType)
    else if body == "" then parsed == EmptyBody
    else parsed.TextBody? && parsed.text == body && parsed.contentType == contentType
  }

  lemma BodyIsTyped(original: Option<Message>, body: string, contentType: Option<string>)
    ensures IsTypedBody(original, body, contentType, ParseBody(body, original, contentType))
  {
    if original.Some? && original.value.body.TextBody? {
      var text := original.value.body.text;
      if text <= body && |body| == |text| + 1 && EndsWith(body, "\n") {
        assert body == text + body[|text|..] && body[|text|..] == "\n";
      }
      if IsOnlyPrinted(text, body) {
        assert body[|body| - 1..] == "\n";
      }
    }
  }

  ghost predicate AllFine(sections: Sections) {
    && (forall l :: l in Lines(sections.meta) ==> IsMetaFine(l))
    && (forall l :: l in Lines(sections.headers) ==> IsHeaderFine(l))
  }

  /** The first problem of the meta section, or the first one of the headers behind a fine meta section. */
  ghost predicate IsFirstProblem(sections: Sections, e: ParseError) {
    var meta, headers := Lines(sections.meta), Lines(sections.headers);
    || (exists k :: 0 <= k < |meta| && IsMetaProblem(meta[k], e) && forall j :: 0 <= j < k ==> IsMetaFine(meta[j]))
    || (&& (forall l :: l in meta ==> IsMetaFine(l))
        && exists k ::
             && 0 <= k < |headers| && IsHeaderProblem(headers[k], e)
             && forall j :: 0 <= j < k ==> IsHeaderFine(headers[j]))
  }

  /** Any text is read if and only if none of its lines has a problem, and otherwise its first problem
      is reported. */
  lemma RefusedExactly(text: string, original: Option<Message>, e: ParseError)
    ensures Parse(text, original).Ok? <==> AllFine(SplitSections(text))
    ensures IsFirstProblem(SplitSections(text), e) ==> Parse(text, original) == Err(e)
  {
    hide ParseMeta, ParseHeaders, IsMetaFine, IsHeaderFine, IsMetaProblem, IsHeaderProblem, Lines, SplitSections;
    hide InitialMeta, ParseBody, IsMetaOf, AreHeadersOf;
    var s := SplitSections(text);
    var meta, headers := Lines(s.meta), Lines(s.headers);
    var st := InitialMeta(original);
    MetaOkExactly(meta, st);
    HeadersOkExactly(headers);
    if IsFirstProblem(s, e) {
      if k :| 0 <= k < |meta| && IsMetaProblem(meta[k], e) && forall j :: 0 <= j < k ==> IsMetaFine(meta[j]) {
        MetaIsRefused(meta, k, e, st);
      } else {
        var k :|
          0 <= k < |headers| && IsHeaderProblem(headers[k], e) && forall j :: 0 <= j < k ==> IsHeaderFine(headers[j]);
        HeadersAreRefused(headers, k, e);
      }
    }
  }

  lemma {:induction false} MetaOkExactly(lines: seq<string>, st: Meta)
    ensures ParseMeta(lines, st).Ok? <==> forall l :: l in lines ==> IsMetaFine(l)
    decreases |lines|
  {
    hide ParseMetaLine, IsMetaFine;
    if lines != [] {
      MetaLineExactly(lines[0], st);
      assert lines == [lines[0]] + lines[1..];
      if ParseMetaLine(lines[0], st).Ok? {
        MetaOkExactly(lines[1..], ParseMetaLine(lines[0], st).value);
      }
    }
  }

  lemma {:induction false} HeadersOkExactly(lines: seq<string>)
    ensures ParseHeaders(lines).Ok? <==> forall l :: l in lines ==> IsHeaderFine(l)
    decreases |lines|
  {
    hide ParseHeaderLine, IsHeaderFine;
    if lines != [] {
      HeaderLineExactly(lines[0]);
      assert lines == [lines[0]] + lines[1..];
      HeadersOkExactly(lines[1..]);
    }
  }

  /** What a text that is read means: of several lines for one field the last one counts, fields without
      a line come from the original, the header lines are the headers in their order. */
  lemma ReadExactly(text: string, original: Option<Message>) returns (st: Meta, at: seq<nat>)
    requires Parse(text, original).Ok?
    ensures var s, m := SplitSections(text), Parse(text, original).value;
      && (original.None? ==>
            IsMetaOf(Lines(s.meta), Meta(Request, None, None, "", "/", "", None, None), st))
      && (original.Some? ==>
            var o := original.value;
            IsMetaOf(Lines(s.meta),
                     Meta(o.kind, o.verb, o.scheme, o.host, o.path, o.query, o.status, o.BodyContentType()), st))
      && m.kind == st.kind && m.verb == st.verb && m.scheme == st.scheme && m.host == st.host && m.path == st.path
      && m.query == st.query && m.status == st.status
      && AreHeadersOf(Lines(s.headers), m.headers, at)
      && IsTypedBody(original, s.body, st.contentType, m.body)
  {
    hide ParseMeta, ParseHeaders, IsMetaFine, IsHeaderFine, Lines, SplitSections, ParseBody;
    hide IsMetaOf, AreHeadersOf, IsTypedBody;
    var s := SplitSections(text);
    MetaOkExactly(Lines(s.meta), InitialMeta(original));
    HeadersOkExactly(Lines(s.headers));
    MetaIsRead(Lines(s.meta), InitialMeta(original));
    at := HeadersAreRead(Lines(s.headers));
    st := ParseMeta(Lines(s.meta), InitialMeta(original)).value;
    BodyIsTyped(original, s.body, st.contentType);
  }
}
