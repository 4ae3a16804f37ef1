/** Generated filters as source files: written by the generator (src/filters/generator.rs) and taken
    apart again by the filter manager (src/filters/manager.rs). */
module FilterSource {
  import opened Wrappers
  import opened Text
  import opened Numbers
  import opened Quoting
  import opened Messages
  import opened BodyRewrite
  import opened Edits
  import opened Generator

  // ----- writing

  datatype SourceFile = SourceFile(
    id: Option<string>, priority: int, enabled: bool, notes: seq<string>, filter: GeneratedFilter)

  function Integer(n: int): string {
    if n < 0 then "-" + Decimal(-n) else Decimal(n)
  }

  function QuotedItems(values: seq<string>): string {
    if values == [] then ""
    else if |values| == 1 then Quoted(values[0])
    else Quoted(values[0]) + ", " + QuotedItems(values[1..])
  }

  function QuotedArray(values: seq<string>): string {
    "[" + QuotedItems(values) + "]"
  }

  function NameLines(f: SourceFile): seq<string> {
    (match f.id case None => [] case Some(id) => ["id = " + Quoted(id)])
    + ["name = " + Quoted(f.filter.name)]
  }

  function FlagLines(f: SourceFile): seq<string> {
    ["enabled = " + (if f.enabled then "true" else "false"), "priority = " + Integer(f.priority), "", "[trigger]"]
  }

  function TriggerLines(f: SourceFile): seq<string> {
    ["host = " + QuotedArray(f.filter.hosts),
     "path = " + QuotedArray(f.filter.paths),
     "method = " + QuotedArray(f.filter.verbs),
     "phase = [" + Quoted(if f.filter.phase.Request? then "request" else "response") + "]"]
  }

  /** The metadata, one TOML line each. */
  function MetadataLines(f: SourceFile): seq<string> {
    NameLines(f) + FlagLines(f) + TriggerLines(f)
  }

  function CommentLine(line: string): string {
    if line == "" then "//!" else "//! " + line
  }

  function CommentLines(lines: seq<string>): seq<string> {
    seq(|lines|, i requires 0 <= i < |lines| => CommentLine(lines[i]))
  }

  function FrontMatterLines(f: SourceFile): seq<string> {
    ["//! +++"] + CommentLines(MetadataLines(f)) + ["//! +++"]
  }

  function ConditionText(c: Condition): string {
    match c
    case PathIs(path) => "req.path() == " + Quoted(path)
    case QueryContains(text) => "req.query().contains(" + Quoted(text) + ")"
    case VerbIs(verb) => "req.method() == " + Quoted(verb)
    case StatusIs(status) => "res.status() == " + Decimal(status)
    case ContentTypeContains(text) => "res.content_type().contains(" + Quoted(text) + ")"
    case BodyContains(text) => "res.body_text().contains(" + Quoted(text) + ")"
  }

  function ConditionTexts(cs: seq<Condition>): string {
    if cs == [] then ""
    else if |cs| == 1 then ConditionText(cs[0])
    else ConditionText(cs[0]) + "\n        && " + ConditionTexts(cs[1..])
  }

  /** Pieces written one after the other. */
  function Join(pieces: seq<string>): string {
    if pieces == [] then "" else pieces[0] + Join(pieces[1..])
  }

  const CALL := "\n            ."
  const NOT_FOR_REQUESTS := "\n            // unsupported response action in request filter"
  const NOT_FOR_RESPONSES := "\n            // unsupported request action in response filter"

  function Unsupported(phase: Kind): seq<string> {
    [if phase.Request? then NOT_FOR_REQUESTS else NOT_FOR_RESPONSES]
  }

  function RewritePieces(rewrite: Rewrite): seq<string> {
    match rewrite
    case TextOnce(removed, inserted) =>
      [CALL, "replace_body_text_once(", Quoted(removed), ", ", Quoted(inserted), ")"]
    case InJsProperty(property, removed, inserted) =>
      [CALL, "replace_js_property(", Quoted(property), ", ", Quoted(removed), ", ", Quoted(inserted), ")"]
    case InCssDeclaration(property, removed, inserted) =>
      [CALL, "replace_css_declaration(", Quoted(property), ", ", Quoted(removed), ", ", Quoted(inserted), ")"]
    case InHtmlAttribute(selector, attribute, removed, inserted) =>
      [CALL, "replace_html_attribute(", Quoted(selector), ", ", Quoted(attribute), ", ",
       Quoted(removed), ", ", Quoted(inserted), ")"]
    case JsonPatch(_, patch, contentType) =>
      [CALL, "apply_json_patch(", Quoted(patch), ", ", Quoted(contentType), ")"]
  }

  const COMMENT := "\n            // "

  function OperationText(o: JsonOperation): string {
    match o
    case Add(path, value) => "- add " + path + " = " + value
    case Remove(path) => "- remove " + path
    case Replace(path, value) => "- replace " + path + " = " + value
    case Move(origin, path) => "- move " + origin + " -> " + path
  }

  /** Each line behind a comment mark. */
  function Commented(lines: seq<string>): string {
    if lines == [] then "" else COMMENT + lines[0] + Commented(lines[1..])
  }

  /** A JSON patch is written down in comments before it is called, as it is. */
  function PatchComment(operations: seq<JsonOperation>, patch: string): string {
    Commented(["JSON patch operations:"]
              + seq(|operations|, i requires 0 <= i < |operations| => OperationText(operations[i]))
              + ["RFC6902 JSON Patch:"] + Lines(patch))
  }

  function CommentOf(phase: Kind, a: Action): string {
    if a.RewriteBody? && a.target == phase && a.rewrite.JsonPatch? then
      PatchComment(a.rewrite.operations, a.rewrite.patch)
    else ""
  }

  function ActionPieces(phase: Kind, a: Action): seq<string> {
    match a
    case Mark(text) => [CALL, "mark(", Quoted(text), ")"]
    case SetHeader(target, name, value) =>
      if target == phase then [CALL, "set_header(", Quoted(name), ", ", Quoted(value), ")"] else Unsupported(phase)
    case RemoveHeader(target, name) =>
      if target == phase then [CALL, "remove_header(", Quoted(name), ")"] else Unsupported(phase)
    case SetBody(target, body, contentType) =>
      if target == phase then [CALL, "set_body_text(", Quoted(body), ", ", Quoted(contentType), ")"]
      else Unsupported(phase)
    case RewriteBody(target, rewrite) => if target == phase then RewritePieces(rewrite) else Unsupported(phase)
    case SetStatus(n) =>
      if phase.Response? then [CALL, "set_status(", Decimal(n), ")"] else Unsupported(phase)
    case Stop => [CALL, "stop()"]
    case Drop => [CALL, "drop()"]
  }

  function ActionTexts(phase: Kind, actions: seq<Action>): string {
    if actions == [] then ""
    else CommentOf(phase, actions[0]) + Join(ActionPieces(phase, actions[0])) + ActionTexts(phase, actions[1..])
  }

  function HeadText(phase: Kind): string {
    if phase.Request? then "fn request_action(req: Request) -> RequestAction {\n"
    else "fn response_action(res: Response) -> ResponseAction {\n"
  }

  function PassText(phase: Kind): string {
    if phase.Request? then "RequestAction.pass()" else "ResponseAction.pass()"
  }

  /** The code up to the actions. */
  function CodeHead(f: GeneratedFilter): seq<string> {
    ["    true\n", "}\n\n"]
    + if f.conditions == [] then [HeadText(f.phase), "    ", PassText(f.phase)]
      else [HeadText(f.phase), "    if ", ConditionTexts(f.conditions), " {\n", "        ", PassText(f.phase)]
  }

  /** The code behind the actions. */
  function CodeTail(f: GeneratedFilter): seq<string> {
    if f.conditions == [] then ["\n", "}\n"]
    else ["\n", "    } else {\n", "        ", PassText(f.phase), "\n", "    }\n", "}\n"]
  }

  function CodeText(f: GeneratedFilter): string {
    Join(CodeHead(f)) + (ActionTexts(f.phase, f.actions) + Join(CodeTail(f)))
  }

  function NoteLines(notes: seq<string>): string {
    if notes == [] then "" else "// " + notes[0] + "\n" + NoteLines(notes[1..])
  }

  const GENERATED_LINE := "// Generated by inspect pattern extractor.\n"
  const PROMOTE_LINE :=
    "// Move this file to ./filters/ if you "
    + "want to promote it to a normal filter.\n"
  const TODO_LINE :=
    "// TODO: convert this draft into concrete rewrite "
    + "actions when the required Roto APIs are available.\n"
  const PING_LINE := "fn ping() -> bool {"

  function Banner(): string {
    Join(["\n", GENERATED_LINE, PROMOTE_LINE])
  }

  /** What is written between the notes and the ping function. */
  function AfterNotes(f: SourceFile): string {
    Join([if f.notes != [] then TODO_LINE else "", "\n"])
  }

  /** Everything after the front matter. */
  function ScriptText(f: SourceFile): string {
    Banner() + (NoteLines(f.notes) + (AfterNotes(f) + (PING_LINE + "\n" + CodeText(f.filter))))
  }

  function RotoSource(f: SourceFile): string {
    Unlines(FrontMatterLines(f)) + ScriptText(f)
  }

  method WriteFrontMatter(f: SourceFile) returns (out: string)
    ensures out == Unlines(FrontMatterLines(f))
  {
    hide Unlines, CommentLine, MetadataLines;
    var lines := MetadataLines(f);
    out := "//! +++" + "\n";
    ghost var done := ["//! +++"];
    UnlinesOne("//! +++");
    for i := 0 to |lines|
      invariant done == ["//! +++"] + CommentLines(lines[..i])
      invariant out == Unlines(done)
    {
      UnlinesSnoc(done, CommentLine(lines[i]));
      done := done + [CommentLine(lines[i])];
      out := out + CommentLine(lines[i]) + "\n";
    }
    assert lines[..|lines|] == lines;
    UnlinesSnoc(done, "//! +++");
    out := out + "//! +++" + "\n";
  }

  lemma {:induction false} NoteLinesSnoc(notes: seq<string>, note: string)
    ensures NoteLines(notes + [note]) == NoteLines(notes) + ("// " + note + "\n")
  {
    if notes == [] {
      assert (notes + [note])[1..] == [];
      assert "// " + note + "\n" + "" == "" + ("// " + note + "\n");
    } else {
      assert (notes + [note])[1..] == notes[1..] + [note];
      NoteLinesSnoc(notes[1..], note);
      SeqAssoc("// " + notes[0] + "\n", NoteLines(notes[1..]), "// " + note + "\n");
    }
  }

  method WriteNotes(notes: seq<string>) returns (out: string)
    ensures out == NoteLines(notes)
  {
    out := "";
    for i := 0 to |notes|
      invariant out == NoteLines(notes[..i])
    {
      NoteLinesSnoc(notes[..i], notes[i]);
      assert notes[..i + 1] == notes[..i] + [notes[i]];
      out := out + ("// " + notes[i] + "\n");
    }
    assert notes[..|notes|] == notes;
  }

  method ToRotoSource(f: SourceFile) returns (out: string)
    ensures out == RotoSource(f)
  {
    out := WriteFrontMatter(f);
    var notes := WriteNotes(f.notes);
    var ping := PING_LINE + "\n";
    out := out + Banner();
    out := out + notes;
    out := out + AfterNotes(f);
    out := out + ping;
    out := out + CodeText(f.filter);
    ghost var front := Unlines(FrontMatterLines(f));
    SeqAssoc(front, Banner(), notes + (AfterNotes(f) + (ping + CodeText(f.filter))));
    SeqAssoc(front + Banner(), notes, AfterNotes(f) + (ping + CodeText(f.filter)));
    SeqAssoc(front + Banner() + notes, AfterNotes(f), ping + CodeText(f.filter));
    SeqAssoc(front + Banner() + notes + AfterNotes(f), ping, CodeText(f.filter));
  }

  // ----- reading

  datatype Parsed =
    | FrontMatter(metadata: string, script: string)
    | NoFrontMatter(script: string)
    | UnterminatedString(line: string)
    | UnterminatedBlock
    | UnreadableMetadata(metadata: string)

  const DELIMITER := "+++"

  function NormalizedCommentLine(line: string): Option<string> {
    var t := TrimStart(line);
    if "//!" <= t then Some(TrimStart(t[3..]))
    else if "//" <= t then Some(TrimStart(t[2..]))
    else None
  }

  /** The position of the first line that is not blank. */
  function FirstNonBlank(lines: seq<string>): (n: nat)
    ensures n <= |lines|
    ensures n < |lines| ==> Trim(lines[n]) != ""
    ensures forall i :: 0 <= i < n ==> Trim(lines[i]) == ""
  {
    if lines == [] || Trim(lines[0]) != "" then 0 else 1 + FirstNonBlank(lines[1..])
  }

  /** Where line `n` would start if every line before it had a one-character end. */
  function StartOf(lines: seq<string>, n: nat): nat
    requires n <= |lines|
  {
    if n == 0 then 0 else |lines[0]| + 1 + StartOf(lines[1..], n - 1)
  }

  function Block(lines: seq<string>, metadata: string): Parsed
    decreases |lines|
  {
    if lines == [] then UnterminatedBlock
    else
      var normalized := NormalizedCommentLine(lines[0]).GetOr(lines[0]);
      if Trim(normalized) == DELIMITER then FrontMatter(metadata, Unlines(lines[1..]))
      else if !IsBalanced(normalized) then UnterminatedString(normalized)
      else Block(lines[1..], metadata + normalized + "\n")
  }

  /** The pieces of a source file. */
  function TakeApart(source: string): Parsed {
    var lines := Lines(source);
    var n := FirstNonBlank(lines);
    if n == |lines| then NoFrontMatter("")
    else if NormalizedCommentLine(lines[n]) != Some(DELIMITER) then NoFrontMatter(source)
    else
      StartInside(source, n);
      TrimNonBlank(lines[n]);
      Block(Lines(source[StartOf(lines, n)..])[1..], "")
  }

  /** A source file as the manager reads it; `readable` tells which metadata the TOML library reads. */
  function ParseSource(readable: string -> bool, source: string): Parsed {
    var parsed := TakeApart(source);
    if parsed.FrontMatter? && !readable(parsed.metadata) then UnreadableMetadata(parsed.metadata) else parsed
  }

  lemma TrimNonBlank(line: string)
    requires Trim(line) != ""
    ensures line != ""
  {
  }

  lemma SomeLine(s: string)
    requires s != ""
    ensures Lines(s) != []
  {
  }

  lemma {:induction false} StartInside(source: string, n: nat)
    requires n < |Lines(source)|
    ensures StartOf(Lines(source), n) + |Lines(source)[n]| <= |source|
    decreases n
  {
    if n > 0 {
      var i := IndexOf(source, '\n').value;
      StartInside(source[i + 1..], n - 1);
    }
  }

  // ----- what reading a source amounts to

  /** A line of the block without its comment marker, if it has one. */
  function Normal(line: string): string {
    NormalizedCommentLine(line).GetOr(line)
  }

  function Normals(lines: seq<string>): (r: seq<string>)
    ensures |r| == |lines| && forall i :: 0 <= i < |r| ==> r[i] == Normal(lines[i])
  {
    seq(|lines|, i requires 0 <= i < |lines| => Normal(lines[i]))
  }

  predicate Closes(line: string) {
    Trim(Normal(line)) == "+++"
  }

  predicate IsPlainLine(line: string) {
    !Closes(line) && IsBalanced(Normal(line))
  }

  /** The first line that closes the block or breaks it off. */
  predicate EndsAt(lines: seq<string>, k: int) {
    0 <= k < |lines| && !IsPlainLine(lines[k]) && forall j :: 0 <= j < k ==> IsPlainLine(lines[j])
  }

  ghost predicate IsReadBlock(lines: seq<string>, r: Parsed) {
    && (forall k :: EndsAt(lines, k) ==>
          r == if Closes(lines[k]) then FrontMatter(Unlines(Normals(lines[..k])), Unlines(lines[k + 1..]))
               else UnterminatedString(Normal(lines[k])))
    && ((forall l :: l in lines ==> IsPlainLine(l)) ==> r == UnterminatedBlock)
  }

  lemma {:induction false} BlockEnds(lines: seq<string>, metadata: string, k: nat)
    requires EndsAt(lines, k)
    ensures Block(lines, metadata) ==
            if Closes(lines[k]) then FrontMatter(metadata + Unlines(Normals(lines[..k])), Unlines(lines[k + 1..]))
            else UnterminatedString(Normal(lines[k]))
    decreases |lines|
  {
    hide Trim, NormalizedCommentLine, IsBalanced;
    if k == 0 {
      assert Normals(lines[..0]) == [] && metadata + "" == metadata;
    } else {
      assert IsPlainLine(lines[0]);
      var first := Normal(lines[0]) + "\n";
      BlockEnds(lines[1..], metadata + first, k - 1);
      assert lines[1..][k..] == lines[k + 1..];
      var rest := Normals(lines[1..][..k - 1]);
      assert Normals(lines[..k]) == [Normal(lines[0])] + rest;
      assert ([Normal(lines[0])] + rest)[1..] == rest;
      SeqAssoc(metadata, first, Unlines(rest));
      assert metadata + Normal(lines[0]) + "\n" == metadata + first;
    }
  }

  lemma {:induction false} BlockIsOpen(lines: seq<string>, metadata: string)
    requires forall l :: l in lines ==> IsPlainLine(l)
    ensures Block(lines, metadata) == UnterminatedBlock
    decreases |lines|
  {
    hide Trim, NormalizedCommentLine, IsBalanced;
    if lines != [] {
      assert lines[0] in lines && IsPlainLine(lines[0]);
      BlockIsOpen(lines[1..], metadata + NormalizedCommentLine(lines[0]).GetOr(lines[0]) + "\n");
    }
  }

  lemma BlockIsRead(lines: seq<string>)
    ensures IsReadBlock(lines, Block(lines, ""))
  {
    hide Block, IsPlainLine, Closes;
    forall k | EndsAt(lines, k)
      ensures Block(lines, "") ==
              if Closes(lines[k]) then FrontMatter(Unlines(Normals(lines[..k])), Unlines(lines[k + 1..]))
              else UnterminatedString(Normal(lines[k]))
    {
      BlockEnds(lines, "", k);
      assert "" + Unlines(Normals(lines[..k])) == Unlines(Normals(lines[..k]));
    }
    if forall l :: l in lines ==> IsPlainLine(l) {
      BlockIsOpen(lines, "");
    }
  }

  predicate IsFirstText(lines: seq<string>, n: int) {
    0 <= n < |lines| && Trim(lines[n]) != "" && forall i :: 0 <= i < n ==> Trim(lines[i]) == ""
  }

  /** A source whose first line that is not blank is a delimiter: the block behind that line, unless the
      TOML library cannot read what is in it. */
  ghost predicate IsReadFrom(readable: string -> bool, text: string, r: Parsed) {
    && Lines(text) != []
    && exists block :: IsReadBlock(Lines(text)[1..], block)
         && r == if block.FrontMatter? && !readable(block.metadata) then UnreadableMetadata(block.metadata) else block
  }

  /** A blank source has no script; one that does not open with a delimiter is all script; any other is a
      block of metadata and the script behind it. */
  ghost predicate IsReadAs(readable: string -> bool, source: string, r: Parsed) {
    && ((forall l :: l in Lines(source) ==> Trim(l) == "") ==> r == NoFrontMatter(""))
    && (forall n :: IsFirstText(Lines(source), n) ==>
          if NormalizedCommentLine(Lines(source)[n]) != Some("+++") then r == NoFrontMatter(source)
          else StartOf(Lines(source), n) <= |source| && IsReadFrom(readable, source[StartOf(Lines(source), n)..], r))
  }

  method ParseFilterSource(readable: string -> bool, source: string) returns (r: Parsed)
    ensures r == ParseSource(readable, source)
    ensures IsReadAs(readable, source, r)
  {
    hide Lines, NormalizedCommentLine, Trim, StartOf, Block, IsReadAs;
    SourceIsRead(readable, source);
    var all := Lines(source);
    var n := 0;
    while n < |all| && Trim(all[n]) == ""
      invariant n <= |all|
      invariant FirstNonBlank(all) == n + FirstNonBlank(all[n..])
    {
      n := n + 1;
    }
    if n == |all| {
      return NoFrontMatter("");
    }
    if NormalizedCommentLine(all[n]) != Some(DELIMITER) {
      return NoFrontMatter(source);
    }
    StartInside(source, n);
    TrimNonBlank(all[n]);
    SomeLine(source[StartOf(all, n)..]);
    r := ReadBlock(Lines(source[StartOf(all, n)..])[1..]);
    if r.FrontMatter? && !readable(r.metadata) {
      r := UnreadableMetadata(r.metadata);
    }
  }

  lemma FirstTextIs(lines: seq<string>, n: nat)
    requires IsFirstText(lines, n)
    ensures FirstNonBlank(lines) == n
  {
  }

  lemma OpenedSourceIsRead(readable: string -> bool, source: string, n: nat)
    requires IsFirstText(Lines(source), n)
    ensures
      if NormalizedCommentLine(Lines(source)[n]) != Some("+++")
      then ParseSource(readable, source) == NoFrontMatter(source)
      else
        && StartOf(Lines(source), n) <= |source|
        && IsReadFrom(readable, source[StartOf(Lines(source), n)..], ParseSource(readable, source))
  {
    hide Lines, NormalizedCommentLine, Trim, StartOf, Block, IsReadBlock, FirstNonBlank;
    var lines := Lines(source);
    FirstTextIs(lines, n);
    StartInside(source, n);
    TrimNonBlank(lines[n]);
    var text := source[StartOf(lines, n)..];
    SomeLine(text);
    BlockIsRead(Lines(text)[1..]);
  }

  lemma BlankSourceIsRead(readable: string -> bool, source: string)
    requires forall l :: l in Lines(source) ==> Trim(l) == ""
    ensures ParseSource(readable, source) == NoFrontMatter("")
  {
    hide Lines, NormalizedCommentLine, Trim, StartOf, Block;
    var n := FirstNonBlank(Lines(source));
    if n < |Lines(source)| {
      assert Lines(source)[n] in Lines(source);
    }
  }

  lemma SourceIsRead(readable: string -> bool, source: string)
    ensures IsReadAs(readable, source, ParseSource(readable, source))
  {
    hide IsReadFrom, ParseSource, Trim, Lines;
    if forall l :: l in Lines(source) ==> Trim(l) == "" {
      BlankSourceIsRead(readable, source);
    }
    forall n | IsFirstText(Lines(source), n)
      ensures
        if NormalizedCommentLine(Lines(source)[n]) != Some("+++")
        then ParseSource(readable, source) == NoFrontMatter(source)
        else
          && StartOf(Lines(source), n) <= |source|
          && IsReadFrom(readable, source[StartOf(Lines(source), n)..], ParseSource(readable, source))
    {
      OpenedSourceIsRead(readable, source, n);
    }
  }

  method ReadBlock(lines: seq<string>) returns (r: Parsed)
    ensures r == Block(lines, "") && IsReadBlock(lines, r)
  {
    hide IsReadBlock;
    BlockIsRead(lines);
    var metadata, script := "", "";
    var inFrontMatter := true;
    for i := 0 to |lines|
      invariant inFrontMatter ==> script == "" && Block(lines, "") == Block(lines[i..], metadata)
      invariant !inFrontMatter ==> Block(lines, "") == FrontMatter(metadata, script + Unlines(lines[i..]))
    {
      var line := lines[i];
      assert lines[i..][1..] == lines[i + 1..];
      if inFrontMatter {
        var normalized := NormalizedCommentLine(line).GetOr(line);
        if Trim(normalized) == DELIMITER {
          inFrontMatter := false;
          assert "" + Unlines(lines[i + 1..]) == Unlines(lines[i + 1..]);
          continue;
        }
        var ok := ValidateFrontMatterLine(normalized);
        if !ok {
          return UnterminatedString(normalized);
        }
        metadata := metadata + normalized + "\n";
      } else {
        UnlinesStep(script, line, lines[i + 1..]);
        script := script + line + "\n";
      }
    }
    if inFrontMatter {
      return UnterminatedBlock;
    }
    assert lines[|lines|..] == [] && script + "" == script;
    r := FrontMatter(metadata, script);
  }

  lemma UnlinesStep(done: string, line: string, rest: seq<string>)
    ensures done + (line + "\n" + Unlines(rest)) == done + line + "\n" + Unlines(rest)
  {
  }

  predicate HasExecutableScript(script: string) {
    exists line :: line in Lines(script) && IsExecutable(Trim(line))
  }

  predicate IsExecutable(line: string) {
    line != "" && !("//" <= line) && !("/*" <= line) && !("*" <= line) && !("*/" <= line)
  }

  // ----- metadata lines survive the comment prefix

  /** A metadata line: one clean line, trimmed, balanced, and not the delimiter. */
  predicate IsMetadataLine(line: string) {
    (forall c :: c in line ==> !IsControl(c)) && IsTrimmed(line) && IsBalanced(line) && line != DELIMITER
  }

  lemma CommentLineNormalizes(line: string)
    requires IsTrimmed(line) && (forall c :: c in line ==> !IsControl(c))
    ensures NormalizedCommentLine(CommentLine(line)) == Some(line)
    ensures IsLine(CommentLine(line))
    ensures Trim(CommentLine(line)) != ""
  {
    var t := CommentLine(line);
    TrimNotBlank(t, 0);
    if line == "" {
      assert t[3..] == "";
    } else {
      assert t[3..] == " " + line && (" " + line)[1..] == line;
      assert TrimStart(line) == line;
      assert TrimStart(" " + line) == line;
      assert TrimStart(t) == t && t[..3] == "//!";
      assert t[|t| - 1] == line[|line| - 1];
      assert line[|line| - 1] in line;
    }
  }

  lemma TrimNotBlank(s: string, i: nat)
    requires i < |s| && !IsWhitespace(s[i])
    ensures Trim(s) != ""
  {
    var a, b := TrimShape(s);
  }

  lemma {:induction false} BlockReadsLines(lines: seq<string>, rest: seq<string>, metadata: string)
    requires forall i :: 0 <= i < |lines| ==> IsMetadataLine(lines[i])
    ensures Block(CommentLines(lines) + (["//! +++"] + rest), metadata) ==
            FrontMatter(metadata + Unlines(lines), Unlines(rest))
    decreases |lines|
  {
    hide NormalizedCommentLine, Trim, IsBalanced, CommentLine;
    var all := CommentLines(lines) + (["//! +++"] + rest);
    if lines == [] {
      assert all == ["//! +++"] + rest && all[1..] == rest;
      DelimiterNormalizes();
      assert metadata + "" == metadata;
    } else {
      var l := lines[0];
      CommentLineNormalizes(l);
      TrimOfTrimmed(l);
      assert all[0] == CommentLine(l);
      assert all[1..] == CommentLines(lines[1..]) + (["//! +++"] + rest);
      BlockReadsLines(lines[1..], rest, metadata + l + "\n");
      assert metadata + l + "\n" + Unlines(lines[1..]) == metadata + Unlines(lines);
    }
  }

  lemma DelimiterNormalizes()
    ensures NormalizedCommentLine("//! +++") == Some(DELIMITER) && Trim(DELIMITER) == DELIMITER
    ensures IsLine("//! +++") && Trim("//! +++") != ""
  {
    assert "//! " + "+++" == "//! +++";
    CommentLineNormalizes("+++");
  }

  // ----- every generated metadata line is one

  lemma ValueLine(key: string, value: string)
    requires key != "" && !IsWhitespace(key[0]) && key[0] != '+' && '"' !in key && '\\' !in key
    requires value != "" && !IsWhitespace(value[|value| - 1])
    requires forall c :: c in key || c in value ==> !IsControl(c)
    requires IsBalanced(value)
    ensures IsMetadataLine(key + value)
  {
    ScanPlain(key, value, false);
    assert (key + value)[0] == key[0] && DELIMITER[0] == '+';
  }

  lemma QuotedIsBalanced(v: string)
    ensures IsBalanced(Quoted(v))
  {
    ScanQuoted(v, "");
    assert Quoted(v) + "" == Quoted(v);
  }

  lemma {:induction false} QuotedItemsScan(values: seq<string>, rest: string)
    ensures EndsInString(QuotedItems(values) + rest, false, false) == EndsInString(rest, false, false)
    ensures forall c :: c in QuotedItems(values) ==> !IsControl(c)
  {
    if values == [] {
      assert QuotedItems(values) + rest == rest;
    } else {
      QuotedHasNoControls(values[0]);
      if |values| == 1 {
        ScanQuoted(values[0], rest);
      } else {
        var more := QuotedItems(values[1..]);
        Regroup3(Quoted(values[0]), ", ", more, rest);
        ScanQuoted(values[0], ", " + (more + rest));
        ScanPlain(", ", more + rest, false);
        QuotedItemsScan(values[1..], rest);
      }
    }
  }

  lemma Regroup3(a: string, b: string, c: string, d: string)
    ensures a + b + c + d == a + (b + (c + d))
  {
  }

  lemma QuotedArrayIsBalanced(values: seq<string>)
    ensures IsBalanced(QuotedArray(values)) && forall c :: c in QuotedArray(values) ==> !IsControl(c)
  {
    QuotedItemsScan(values, "]");
    var items := QuotedItems(values);
    assert QuotedArray(values) == "[" + (items + "]");
    ScanPlain("[", items + "]", false);
    ScanPlain("]", "", false);
    assert "]" + "" == "]";
  }

  lemma IntegerIsPlain(n: int)
    ensures Integer(n) != "" && forall c :: c in Integer(n) ==> c == '-' || DigitValue(c).Some?
  {
    var d := Decimal(if n < 0 then -n else n);
    DigitsAreDigits(if n < 0 then -n else n, 10);
  }

  lemma NameLine(key: string, v: string)
    requires key in ["id = ", "name = "]
    ensures IsMetadataLine(key + Quoted(v))
  {
    QuotedIsBalanced(v);
    QuotedHasNoControls(v);
    ValueLine(key, Quoted(v));
  }

  lemma ArrayLine(key: string, values: seq<string>)
    requires key in ["host = ", "path = ", "method = "]
    ensures IsMetadataLine(key + QuotedArray(values))
  {
    QuotedArrayIsBalanced(values);
    ValueLine(key, QuotedArray(values));
  }

  lemma PlainIsBalanced(s: string)
    requires '"' !in s && '\\' !in s
    ensures IsBalanced(s)
  {
    ScanPlain(s, "", false);
    assert s + "" == s;
  }

  lemma EnabledLine(enabled: bool)
    ensures IsMetadataLine("enabled = " + if enabled then "true" else "false")
  {
    PlainIsBalanced("true");
    PlainIsBalanced("false");
    if enabled { ValueLine("enabled = ", "true"); } else { ValueLine("enabled = ", "false"); }
  }

  lemma PriorityLine(n: int)
    ensures IsMetadataLine("priority = " + Integer(n))
  {
    IntegerIsPlain(n);
    PlainIsBalanced(Integer(n));
    assert Integer(n)[|Integer(n)| - 1] in Integer(n);
    ValueLine("priority = ", Integer(n));
  }

  lemma FixedLines()
    ensures IsMetadataLine("") && IsMetadataLine("[trigger]")
  {
    PlainIsBalanced("");
    PlainIsBalanced("[trigger]");
  }

  lemma PhaseLine(phase: string)
    ensures IsMetadataLine("phase = [" + Quoted(phase) + "]")
  {
    QuotedHasNoControls(phase);
    var value := Quoted(phase) + "]";
    ScanQuoted(phase, "]");
    ScanPlain("]", "", false);
    assert "]" + "" == "]";
    ValueLine("phase = [", value);
    assert "phase = [" + Quoted(phase) + "]" == "phase = [" + value;
  }

  predicate AreMetadataLines(ls: seq<string>) {
    forall i :: 0 <= i < |ls| ==> IsMetadataLine(ls[i])
  }

  lemma NameLinesAreLines(f: SourceFile)
    ensures AreMetadataLines(NameLines(f))
  {
    if f.id.Some? { NameLine("id = ", f.id.value); }
    NameLine("name = ", f.filter.name);
  }

  lemma FlagLinesAreLines(f: SourceFile)
    ensures AreMetadataLines(FlagLines(f))
  {
    EnabledLine(f.enabled);
    PriorityLine(f.priority);
    FixedLines();
  }

  lemma TriggerLinesAreLines(f: SourceFile)
    ensures AreMetadataLines(TriggerLines(f))
  {
    ArrayLine("host = ", f.filter.hosts);
    ArrayLine("path = ", f.filter.paths);
    ArrayLine("method = ", f.filter.verbs);
    PhaseLine(if f.filter.phase.Request? then "request" else "response");
  }

  /** Whatever the name, the id and the triggers contain, every metadata line is a single balanced line. */
  lemma MetadataLinesAreLines(f: SourceFile)
    ensures AreMetadataLines(MetadataLines(f))
  {
    NameLinesAreLines(f);
    FlagLinesAreLines(f);
    TriggerLinesAreLines(f);
    AreLinesConcat(NameLines(f), FlagLines(f));
    AreLinesConcat(NameLines(f) + FlagLines(f), TriggerLines(f));
  }

  lemma AreLinesConcat(a: seq<string>, b: seq<string>)
    requires AreMetadataLines(a) && AreMetadataLines(b)
    ensures AreMetadataLines(a + b)
  {
  }

  // ----- the file comes apart where it was put together

  lemma FrontMatterIsLines(metadata: seq<string>)
    requires AreMetadataLines(metadata)
    ensures forall l :: l in ["//! +++"] + CommentLines(metadata) + ["//! +++"] ==> IsLine(l)
  {
    DelimiterNormalizes();
    forall i | 0 <= i < |metadata| ensures IsLine(CommentLines(metadata)[i]) {
      CommentLineNormalizes(metadata[i]);
    }
  }

  lemma ParseFrom(source: string, metadata: seq<string>, rest: seq<string>)
    requires AreMetadataLines(metadata)
    requires Lines(source) == ["//! +++"] + (CommentLines(metadata) + (["//! +++"] + rest))
    ensures TakeApart(source) == FrontMatter(Unlines(metadata), Unlines(rest))
  {
    DelimiterNormalizes();
    var lines := Lines(source);
    assert lines[0] == "//! +++";
    assert FirstNonBlank(lines) == 0;
    assert source[0..] == source;
    assert lines[1..] == CommentLines(metadata) + (["//! +++"] + rest);
    BlockReadsLines(metadata, rest, "");
    assert "" + Unlines(metadata) == Unlines(metadata);
  }

  lemma BlockReparses(metadata: seq<string>, script: string)
    requires AreMetadataLines(metadata)
    ensures TakeApart(Unlines(["//! +++"] + CommentLines(metadata) + ["//! +++"]) + script) ==
            FrontMatter(Unlines(metadata), Unlines(Lines(script)))
  {
    var front := ["//! +++"] + CommentLines(metadata) + ["//! +++"];
    FrontMatterIsLines(metadata);
    LinesOfUnlines(front, script);
    SeqAssoc(["//! +++"] + CommentLines(metadata), ["//! +++"], Lines(script));
    SeqAssoc(["//! +++"], CommentLines(metadata), ["//! +++"] + Lines(script));
    ParseFrom(Unlines(front) + script, metadata, Lines(script));
  }

  /** The manager reads back exactly the metadata lines, and the script line by line. */
  lemma GeneratedSourceReparses(readable: string -> bool, f: SourceFile)
    ensures var metadata := Unlines(MetadataLines(f));
      ParseSource(readable, RotoSource(f)) ==
      if readable(metadata) then FrontMatter(metadata, Unlines(Lines(ScriptText(f)))) else UnreadableMetadata(metadata)
  {
    MetadataLinesAreLines(f);
    BlockReparses(MetadataLines(f), ScriptText(f));
  }

  // ----- the script

  predicate NoCr(s: string) {
    '\r' !in s
  }

  lemma QuotedNoCr(v: string)
    ensures NoCr(Quoted(v))
  {
    QuotedHasNoControls(v);
  }

  lemma DecimalNoCr(n: nat)
    ensures NoCr(Decimal(n))
  {
    DigitsAreDigits(n, 10);
  }

  lemma ConditionNoCr(c: Condition)
    ensures NoCr(ConditionText(c))
  {
    hide Quoted, Decimal;
    match c
    case PathIs(v) => QuotedNoCr(v);
    case QueryContains(v) => QuotedNoCr(v);
    case VerbIs(v) => QuotedNoCr(v);
    case StatusIs(n) => DecimalNoCr(n);
    case ContentTypeContains(v) => QuotedNoCr(v);
    case BodyContains(v) => QuotedNoCr(v);
  }

  lemma {:induction false} ConditionsNoCr(cs: seq<Condition>)
    ensures NoCr(ConditionTexts(cs))
  {
    if cs != [] {
      ConditionNoCr(cs[0]);
      ConditionsNoCr(cs[1..]);
    }
  }

  lemma {:induction false} JoinNoCr(pieces: seq<string>)
    requires forall i :: 0 <= i < |pieces| ==> NoCr(pieces[i])
    ensures NoCr(Join(pieces))
  {
    if pieces != [] {
      JoinNoCr(pieces[1..]);
    }
  }

  lemma {:induction false} JoinConcat(a: seq<string>, b: seq<string>)
    ensures Join(a + b) == Join(a) + Join(b)
  {
    if a == [] {
      assert a + b == b;
    } else {
      assert (a + b)[1..] == a[1..] + b;
      JoinConcat(a[1..], b);
      SeqAssoc(a[0], Join(a[1..]), Join(b));
    }
  }

  lemma NoCrConcat(a: string, b: string)
    requires NoCr(a) && NoCr(b)
    ensures NoCr(a + b)
  {
  }

  lemma NotForRequestsHalves()
    ensures "\n            // unsupported response action in request filter" ==
            "\n            // unsupported " + "response action in request filter"
  {
  }

  lemma NotForResponsesHalves()
    ensures "\n            // unsupported request action in response filter" ==
            "\n            // unsupported " + "request action in response filter"
  {
  }

  lemma UnsupportedPieces()
    ensures NoCr("\n            // unsupported ")
    ensures NoCr("response action in request filter") && NoCr("request action in response filter")
  {
  }

  lemma UnsupportedNoCr(phase: Kind)
    ensures NoCr(Unsupported(phase)[0]) && Unsupported(phase)[0][0] == '\n'
  {
    hide NoCr;
    NotForRequestsHalves();
    NotForResponsesHalves();
    UnsupportedPieces();
    NoCrConcat("\n            // unsupported ", "response action in request filter");
    NoCrConcat("\n            // unsupported ", "request action in response filter");
  }

  lemma CallPieces()
    ensures NoCr(CALL) && NoCr("mark(") && NoCr("set_header(") && NoCr("remove_header(") && NoCr("set_body_text(")
    ensures NoCr("set_status(") && NoCr("stop()") && NoCr("drop()") && NoCr(", ") && NoCr(")")
  {
  }

  lemma RewriteNames()
    ensures NoCr("replace_js_property(") && NoCr("apply_json_patch(")
    ensures NoCr("replace_body_text_once(") && NoCr("replace_css_declaration(") && NoCr("replace_html_attribute(")
  {
  }

  lemma RewriteNoCr(rewrite: Rewrite)
    ensures NoCr(Join(RewritePieces(rewrite)))
  {
    hide Quoted, Join, NoCr;
    RewriteNames();
    CallPieces();
    match rewrite {
      case TextOnce(removed, inserted) => QuotedNoCr(removed); QuotedNoCr(inserted);
      case InJsProperty(property, removed, inserted) =>
        QuotedNoCr(property); QuotedNoCr(removed); QuotedNoCr(inserted);
      case InCssDeclaration(property, removed, inserted) =>
        QuotedNoCr(property); QuotedNoCr(removed); QuotedNoCr(inserted);
      case InHtmlAttribute(selector, attribute, removed, inserted) =>
        QuotedNoCr(selector); QuotedNoCr(attribute); QuotedNoCr(removed); QuotedNoCr(inserted);
      case JsonPatch(_, patch, contentType) => QuotedNoCr(patch); QuotedNoCr(contentType);
    }
    JoinNoCr(RewritePieces(rewrite));
  }

  lemma ActionNoCr(phase: Kind, a: Action)
    ensures NoCr(Join(ActionPieces(phase, a)))
  {
    hide Quoted, Join, RewritePieces, NoCr, Decimal;
    UnsupportedNoCr(phase);
    CallPieces();
    match a {
      case Mark(v) => QuotedNoCr(v);
      case SetHeader(_, name, value) => QuotedNoCr(name); QuotedNoCr(value);
      case RemoveHeader(_, name) => QuotedNoCr(name);
      case SetBody(_, body, contentType) => QuotedNoCr(body); QuotedNoCr(contentType);
      case RewriteBody(_, rewrite) => RewriteNoCr(rewrite);
      case SetStatus(n) => DecimalNoCr(n);
      case _ =>
    }
    if !a.RewriteBody? || a.target != phase {
      JoinNoCr(ActionPieces(phase, a));
    }
  }

  lemma JoinStarts(pieces: seq<string>)
    requires pieces != [] && pieces[0] != ""
    ensures Join(pieces) != "" && Join(pieces)[0] == pieces[0][0]
  {
  }

  /** Every action starts on a new line. */
  lemma ActionStarts(phase: Kind, a: Action)
    ensures Join(ActionPieces(phase, a)) != "" && Join(ActionPieces(phase, a))[0] == '\n'
  {
    hide Quoted, Join;
    UnsupportedNoCr(phase);
    JoinStarts(ActionPieces(phase, a));
  }

  lemma RequestHeadHalves()
    ensures "fn request_action(req: Request) -> RequestAction {\n" ==
            "fn request_action(req: " + "Request) -> RequestAction {\n"
  {
  }

  lemma ResponseHeadHalves()
    ensures "fn response_action(res: Response) -> ResponseAction {\n" ==
            "fn response_action(res: " + "Response) -> ResponseAction {\n"
  {
  }

  lemma HeadPieces()
    ensures NoCr("fn request_action(req: ") && NoCr("Request) -> RequestAction {\n")
    ensures NoCr("fn response_action(res: ") && NoCr("Response) -> ResponseAction {\n")
  {
  }

  lemma PassNoCr()
    ensures NoCr("RequestAction.pass()") && NoCr("ResponseAction.pass()")
  {
  }

  lemma FixedTextsNoCr(phase: Kind)
    ensures NoCr(HeadText(phase)) && NoCr(PassText(phase))
  {
    hide NoCr;
    PassNoCr();
    RequestHeadHalves();
    ResponseHeadHalves();
    HeadPieces();
    NoCrConcat("fn request_action(req: ", "Request) -> RequestAction {\n");
    NoCrConcat("fn response_action(res: ", "Response) -> ResponseAction {\n");
  }

  lemma HeadNoCr(f: GeneratedFilter)
    ensures NoCr(Join(CodeHead(f)))
  {
    hide ConditionTexts, HeadText, PassText, Join;
    ConditionsNoCr(f.conditions);
    FixedTextsNoCr(f.phase);
    JoinNoCr(CodeHead(f));
  }

  lemma TailNoCr(f: GeneratedFilter)
    ensures NoCr(Join(CodeTail(f))) && EndsWith(Join(CodeTail(f)), "\n")
  {
    hide PassText, Join;
    FixedTextsNoCr(f.phase);
    JoinNoCr(CodeTail(f));
    JoinEnds(CodeTail(f));
  }

  lemma GeneratedHalves()
    ensures GENERATED_LINE == "// Generated by inspect " + "pattern extractor.\n"
    ensures NoCr("// Generated by inspect ") && NoCr("pattern extractor.\n")
  {
  }

  lemma PromoteHalves()
    ensures "// Move this file to ./filters/ if you " == "// Move this file to" + " ./filters/ if you "
    ensures "want to promote it to a normal filter.\n" == "want to promote it " + "to a normal filter.\n"
  {
  }

  lemma PromotePieces()
    ensures NoCr("// Move this file to") && NoCr(" ./filters/ if you ")
    ensures NoCr("want to promote it ") && NoCr("to a normal filter.\n")
  {
  }

  lemma NotesFrameNoCr()
    ensures NoCr(GENERATED_LINE) && NoCr(PROMOTE_LINE)
  {
    hide NoCr;
    GeneratedHalves();
    NoCrConcat("// Generated by inspect ", "pattern extractor.\n");
    PromoteHalves();
    PromotePieces();
    NoCrConcat("// Move this file to", " ./filters/ if you ");
    NoCrConcat("want to promote it ", "to a normal filter.\n");
    NoCrConcat("// Move this file to ./filters/ if you ", "want to promote it to a normal filter.\n");
  }

  lemma TodoStartHalves()
    ensures "// TODO: convert this draft into concrete rewrite " ==
            "// TODO: convert this draft" + " into concrete rewrite "
  {
  }

  lemma TodoEndHalves()
    ensures "actions when the required Roto APIs are available.\n" ==
            "actions when the required " + "Roto APIs are available.\n"
  {
  }

  lemma TodoPieces()
    ensures NoCr("// TODO: convert this draft") && NoCr(" into concrete rewrite ")
    ensures NoCr("actions when the required ") && NoCr("Roto APIs are available.\n")
  {
  }

  lemma TodoNoCr()
    ensures NoCr(TODO_LINE)
  {
    hide NoCr;
    TodoStartHalves();
    TodoEndHalves();
    TodoPieces();
    NoCrConcat("// TODO: convert this draft", " into concrete rewrite ");
    NoCrConcat("actions when the required ", "Roto APIs are available.\n");
    NoCrConcat("// TODO: convert this draft into concrete rewrite ",
               "actions when the required Roto APIs are available.\n");
  }

  lemma PingNoCr()
    ensures NoCr(PING_LINE + "\n")
  {
  }

  lemma {:induction false} JoinEnds(pieces: seq<string>)
    requires pieces != [] && EndsWith(pieces[|pieces| - 1], "\n")
    ensures EndsWith(Join(pieces), "\n")
  {
    if |pieces| == 1 {
      assert pieces[1..] == [];
      assert Join(pieces) == pieces[0];
    } else {
      JoinEnds(pieces[1..]);
    }
  }

  lemma BannerNoCr()
    ensures NoCr(Banner()) && EndsWith(Banner(), "\n")
  {
    NotesFrameNoCr();
    JoinNoCr(["\n", GENERATED_LINE, PROMOTE_LINE]);
    JoinEnds(["\n", GENERATED_LINE, PROMOTE_LINE]);
  }

  lemma FramesNoCr(f: SourceFile)
    ensures NoCr(Banner()) && NoCr(AfterNotes(f)) && NoCr(PING_LINE + "\n")
    ensures EndsWith(Banner(), "\n") && EndsWith(AfterNotes(f), "\n")
  {
    BannerNoCr();
    TodoNoCr();
    PingNoCr();
    JoinNoCr([if f.notes != [] then TODO_LINE else "", "\n"]);
    JoinEnds([if f.notes != [] then TODO_LINE else "", "\n"]);
  }

  lemma {:induction false} NoteLinesEnd(notes: seq<string>)
    ensures NoteLines(notes) == "" || EndsWith(NoteLines(notes), "\n")
  {
    if notes != [] {
      NoteLinesEnd(notes[1..]);
    }
  }

  predicate HasCrlf(s: string) {
    Contains(s, "\r\n")
  }

  predicate EndsInCr(s: string) {
    s != "" && s[|s| - 1] == '\r'
  }

  lemma CrlfIs(s: string)
    ensures HasCrlf(s) <==> exists j :: 0 <= j < |s| - 1 && s[j] == '\r' && s[j + 1] == '\n'
  {
    forall j: nat ensures OccursAt(s, "\r\n", j) <==> j + 1 < |s| && s[j] == '\r' && s[j + 1] == '\n' {
      if j + 2 <= |s| {
        assert s[j..j + 2] == [s[j], s[j + 1]];
      }
    }
    if Find(s, "\r\n").Some? {
      var j := Find(s, "\r\n").value;
      assert j + 1 < |s| && s[j] == '\r' && s[j + 1] == '\n';
      assert 0 <= j < |s| - 1;
    }
  }

  /** A line end pair lies on one side or across the seam. */
  lemma CrlfConcat(a: string, b: string)
    ensures HasCrlf(a + b) <==> HasCrlf(a) || HasCrlf(b) || (EndsInCr(a) && b != "" && b[0] == '\n')
  {
    hide HasCrlf;
    var s := a + b;
    CrlfIs(a);
    CrlfIs(b);
    CrlfIs(s);
    assert forall j :: 0 <= j < |a| ==> s[j] == a[j];
    assert forall j :: 0 <= j < |b| ==> s[|a| + j] == b[j];
    if HasCrlf(s) {
      var j :| 0 <= j < |s| - 1 && s[j] == '\r' && s[j + 1] == '\n';
      if j >= |a| {
        assert b[j - |a|] == '\r' && b[j - |a| + 1] == '\n';
      } else if j + 1 < |a| {
        assert a[j] == '\r' && a[j + 1] == '\n';
      }
    }
    if HasCrlf(a) {
      var j :| 0 <= j < |a| - 1 && a[j] == '\r' && a[j + 1] == '\n';
      assert s[j] == '\r' && s[j + 1] == '\n';
    }
    if HasCrlf(b) {
      var j :| 0 <= j < |b| - 1 && b[j] == '\r' && b[j + 1] == '\n';
      assert s[|a| + j] == '\r' && s[|a| + j + 1] == '\n';
    }
    if EndsInCr(a) && b != "" && b[0] == '\n' {
      assert s[|a| - 1] == '\r' && s[|a| - 1 + 1] == '\n';
    }
  }

  lemma NoCrNoCrlf(s: string)
    requires NoCr(s)
    ensures !HasCrlf(s) && !EndsInCr(s)
  {
    CrlfIs(s);
  }

  /** Text between clean pieces. */
  lemma CrlfInMiddle(a: string, middle: string, b: string)
    requires NoCr(a) && NoCr(b) && !EndsInCr(middle)
    ensures HasCrlf(a + (middle + b)) <==> HasCrlf(middle)
    ensures b != "" ==> !EndsInCr(a + (middle + b))
  {
    hide HasCrlf;
    NoCrNoCrlf(a);
    NoCrNoCrlf(b);
    CrlfConcat(middle, b);
    CrlfConcat(a, middle + b);
    if b != "" {
      assert (a + (middle + b))[|a + (middle + b)| - 1] == b[|b| - 1];
    }
  }

  /** Whether the comment of an action brings a carriage return before a line feed into the script. */
  predicate IsBroken(phase: Kind, a: Action) {
    HasCrlf(CommentOf(phase, a) + "\n")
  }

  /** An action does so only through its comment. */
  lemma ActionCrlf(phase: Kind, a: Action)
    ensures var text := CommentOf(phase, a) + Join(ActionPieces(phase, a));
      (HasCrlf(text) <==> IsBroken(phase, a)) && !EndsInCr(text)
  {
    hide HasCrlf, CommentOf, ActionPieces, Join;
    var comment, call := CommentOf(phase, a), Join(ActionPieces(phase, a));
    ActionNoCr(phase, a);
    ActionStarts(phase, a);
    NoCrNoCrlf(call);
    NoCrNoCrlf("\n");
    CrlfConcat(comment, call);
    CrlfConcat(comment, "\n");
    assert (comment + call)[|comment + call| - 1] == call[|call| - 1];
  }

  lemma {:induction false} ActionsCrlf(phase: Kind, actions: seq<Action>)
    ensures HasCrlf(ActionTexts(phase, actions)) <==> exists a :: a in actions && IsBroken(phase, a)
    ensures !EndsInCr(ActionTexts(phase, actions))
  {
    hide HasCrlf, CommentOf, ActionPieces, IsBroken;
    if actions == [] {
      NoCrNoCrlf("");
    } else {
      var first := CommentOf(phase, actions[0]) + Join(ActionPieces(phase, actions[0]));
      ActionCrlf(phase, actions[0]);
      ActionsCrlf(phase, actions[1..]);
      CrlfConcat(first, ActionTexts(phase, actions[1..]));
      assert forall a :: a in actions <==> a == actions[0] || a in actions[1..];
    }
  }

  lemma CodeCrlf(f: GeneratedFilter)
    ensures HasCrlf(CodeText(f)) <==> exists a :: a in f.actions && IsBroken(f.phase, a)
    ensures !EndsInCr(CodeText(f)) && EndsWith(CodeText(f), "\n")
  {
    hide HasCrlf, ActionTexts, Join, CodeHead, CodeTail, IsBroken;
    HeadNoCr(f);
    TailNoCr(f);
    ActionsCrlf(f.phase, f.actions);
    CrlfInMiddle(Join(CodeHead(f)), ActionTexts(f.phase, f.actions), Join(CodeTail(f)));
    EndsBehind(Join(CodeHead(f)) + ActionTexts(f.phase, f.actions), Join(CodeTail(f)), "\n");
    SeqAssoc(Join(CodeHead(f)), ActionTexts(f.phase, f.actions), Join(CodeTail(f)));
  }

  lemma EndsBehind(a: string, b: string, suffix: string)
    requires EndsWith(b, suffix)
    ensures EndsWith(a + b, suffix)
  {
    assert (a + b)[|a + b| - |suffix|..] == b[|b| - |suffix|..];
  }

  /** The script comes back unchanged exactly when no note and no comment of a JSON patch has a
      carriage return before a line feed. */
  lemma ScriptSurvives(f: SourceFile)
    ensures Unlines(Lines(ScriptText(f))) == ScriptText(f) <==>
            !HasCrlf(NoteLines(f.notes)) && forall a :: a in f.filter.actions ==> !IsBroken(f.filter.phase, a)
  {
    hide HasCrlf, IsBroken, CodeText, AfterNotes, Banner, NoteLines, Lines, Unlines;
    var notes, after, code := NoteLines(f.notes), AfterNotes(f), CodeText(f.filter);
    var ping := PING_LINE + "\n";
    CodeCrlf(f.filter);
    FramesNoCr(f);
    NoteLinesEnd(f.notes);
    NoCrNoCrlf(Banner());
    NoCrNoCrlf(after);
    NoCrNoCrlf(ping);
    CrlfConcat(ping, code);
    CrlfConcat(after, ping + code);
    CrlfConcat(notes, after + (ping + code));
    CrlfConcat(Banner(), notes + (after + (ping + code)));
    assert notes != "" ==> notes[|notes| - 1] == '\n';
    EndsBehind(ping, code, "\n");
    EndsBehind(after, ping + code, "\n");
    EndsBehind(notes, after + (ping + code), "\n");
    EndsBehind(Banner(), notes + (after + (ping + code)), "\n");
    Lossless(ScriptText(f));
  }

  lemma Lossless(s: string)
    requires EndsWith(s, "\n")
    ensures Unlines(Lines(s)) == s <==> !HasCrlf(s)
  {
    LinesLossless(s);
  }

  lemma {:induction false} CommentedNoCr(lines: seq<string>)
    requires forall l :: l in lines ==> NoCr(l)
    ensures NoCr(Commented(lines))
  {
    if lines != [] {
      assert lines[0] in lines;
      CommentedNoCr(lines[1..]);
    }
  }

  /** Patches without carriage returns do no harm. */
  lemma CleanPatch(phase: Kind, operations: seq<JsonOperation>, patch: string, contentType: string)
    requires NoCr(patch) && forall o :: o in operations ==> NoCr(OperationText(o))
    ensures !IsBroken(phase, RewriteBody(phase, JsonPatch(operations, patch, contentType)))
  {
    hide HasCrlf, Lines, OperationText, Commented;
    forall l | l in Lines(patch) ensures NoCr(l) {
      LineKeepsChars(patch, l);
    }
    CommentedNoCr(["JSON patch operations:"]
                  + seq(|operations|, i requires 0 <= i < |operations| => OperationText(operations[i]))
                  + ["RFC6902 JSON Patch:"] + Lines(patch));
    NoCrConcat(PatchComment(operations, patch), "\n");
    NoCrNoCrlf(PatchComment(operations, patch) + "\n");
  }

  lemma LineKeepsChars(s: string, l: string)
    requires l in Lines(s)
    ensures forall c :: c in l ==> c in s
  {
    ContainsLine(s, l);
    var i := Find(s, l).value;
    assert l == s[i..i + |l|];
  }

  lemma {:induction false} CleanNotes(notes: seq<string>)
    requires forall n :: n in notes ==> NoCr(n)
    ensures !Contains(NoteLines(notes), "\r\n") && NoCr(NoteLines(notes))
  {
    if notes != [] {
      assert notes[0] in notes;
      CleanNotes(notes[1..]);
    }
    if Contains(NoteLines(notes), "\r\n") {
      OccursMeans(NoteLines(notes), "\r\n", Find(NoteLines(notes), "\r\n").value, 0);
    }
  }

  lemma PingLineIsThere(before: string, after: string)
    requires EndsWith(before, "\n")
    ensures PING_LINE in Lines(before + (PING_LINE + "\n" + after))
  {
    LinesConcat(before, PING_LINE + "\n" + after);
    LinesCons(PING_LINE, after);
  }

  lemma PingLineIsCode()
    ensures IsExecutable(Trim(PING_LINE)) && IsLine(PING_LINE)
  {
    TrimOfTrimmed(PING_LINE);
  }

  /** The parsed script always has code in it, so a generated filter is never metadata only. */
  lemma GeneratedScriptIsExecutable(f: SourceFile)
    ensures HasExecutableScript(Unlines(Lines(ScriptText(f))))
  {
    var before := Banner() + (NoteLines(f.notes) + AfterNotes(f));
    var tail := PING_LINE + "\n" + CodeText(f.filter);
    FramesNoCr(f);
    assert ScriptText(f) == before + tail by {
      SeqAssoc(NoteLines(f.notes), AfterNotes(f), tail);
      SeqAssoc(Banner(), NoteLines(f.notes) + AfterNotes(f), tail);
    }
    PingLineIsThere(before, CodeText(f.filter));
    PingLineIsCode();
    LinesStable(ScriptText(f));
  }

  /** Lines read from text that was put back together from lines. */
  lemma {:induction false} LinesStable(s: string)
    ensures forall l :: l in Lines(s) && IsLine(l) ==> l in Lines(Unlines(Lines(s)))
    decreases |s|
  {
    if s != "" {
      match IndexOf(s, '\n')
      case None =>
        assert Unlines([s]) == s + "\n" by { assert [s][1..] == []; }
        LinesCons(s, "");
        assert s + "\n" + "" == s + "\n";
      case Some(i) =>
        LinesStable(s[i + 1..]);
        LinesCons(StripCr(s[..i]), Unlines(Lines(s[i + 1..])));
    }
  }
}
