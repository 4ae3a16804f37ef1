/** Rewrites of a text body: found by comparing it with the edited one
    (src/filters/engine/semantic/body_tree_sitter.rs), and run on the body of a flow
    (src/filters/runtime.rs). */
module BodyRewrite {
  import opened Wrappers
  import opened Text
  import opened Utf8
  import opened Messages

  // ----- what the libraries decide

  datatype JsonOperation =
    | Add(path: string, value: string)
    | Remove(path: string)
    | Replace(path: string, value: string)
    | Move(origin: string, path: string)

  datatype Language = Json | Html | Xml | JavaScript | Css | PlainText

  /** The place of an edit in a syntax tree; `literal` is the span of an enclosing string. */
  datatype TreePlace =
    | Node
    | JsProperty(property: string, literal: Option<(nat, nat)>)
    | CssDeclaration(property: string)
    | HtmlAttribute(selector: string, attribute: string)

  /** JSON patches and syntax trees, which are not modelled further: the operations between two bodies,
      their text as an RFC 6902 patch, applying that, and finding an edit in a tree. */
  datatype Analysis = Analysis(
    operations: (Body, Body) -> seq<JsonOperation>,
    render: seq<JsonOperation> -> string,
    applyPatch: (string, string) -> Option<string>,
    findPlace: (Language, string, Replacement) -> Option<TreePlace>)

  // ----- the edit as one replacement

  /** At `start`, `removed` makes way for `inserted`. */
  datatype Replacement = Replacement(start: nat, removed: string, inserted: string) {
    function End(): nat {
      start + |removed|
    }
  }

  function CommonPrefix(a: string, b: string): (n: nat)
    ensures n <= |a| && n <= |b| && a[..n] == b[..n]
    ensures n < |a| && n < |b| ==> a[n] != b[n]
  {
    if a == "" || b == "" || a[0] != b[0] then 0
    else
      var n := CommonPrefix(a[1..], b[1..]);
      assert a[..1 + n] == [a[0]] + a[1..][..n] && b[..1 + n] == [b[0]] + b[1..][..n];
      1 + n
  }

  function CommonSuffix(a: string, b: string): (n: nat)
    ensures n <= |a| && n <= |b| && a[|a| - n..] == b[|b| - n..]
  {
    if a == "" || b == "" || a[|a| - 1] != b[|b| - 1] then 0
    else
      var n := CommonSuffix(a[..|a| - 1], b[..|b| - 1]);
      assert a[|a| - 1 - n..] == a[..|a| - 1][|a| - 1 - n..] + [a[|a| - 1]];
      assert b[|b| - 1 - n..] == b[..|b| - 1][|b| - 1 - n..] + [b[|b| - 1]];
      1 + n
  }

  const MAX_REPLACEMENT := 4096

  /** What is left between a common prefix and a common suffix of the rest. */
  function Middles(original: string, edited: string, start: nat, suffix: nat): Replacement
    requires start + suffix <= |original| && start + suffix <= |edited|
  {
    Replacement(start, original[start..|original| - suffix], edited[start..|edited| - suffix])
  }

  /** Nothing to do, or too much for a replacement. */
  function Limited(r: Replacement): (o: Option<Replacement>)
    ensures o.Some? ==> o.value == r
  {
    if r.removed == "" && r.inserted == "" then None
    else if ByteLength(r.removed) > MAX_REPLACEMENT || ByteLength(r.inserted) > MAX_REPLACEMENT then None
    else Some(r)
  }

  function SingleReplacement(original: string, edited: string): Option<Replacement> {
    var start := CommonPrefix(original, edited);
    Limited(Middles(original, edited, start, CommonSuffix(original[start..], edited[start..])))
  }

  /** Making the replacement where it was found gives the edited text, and what it removes and what
      it inserts begin differently. */
  lemma ReplacementShape(original: string, edited: string)
    requires SingleReplacement(original, edited).Some?
    ensures IsShapeOf(SingleReplacement(original, edited).value, original, edited)
  {
    hide Limited, IsShapeOf, Middles;
    var start := CommonPrefix(original, edited);
    CutShape(original, edited, start, CommonSuffix(original[start..], edited[start..]));
  }

  predicate IsShapeOf(r: Replacement, original: string, edited: string) {
    && r.End() <= |original| && original[r.start..r.End()] == r.removed
    && edited == original[..r.start] + r.inserted + original[r.End()..]
    && (r.removed != "" && r.inserted != "" ==> r.removed[0] != r.inserted[0])
  }

  lemma CutShape(original: string, edited: string, start: nat, suffix: nat)
    requires start <= |original| && start <= |edited| && original[..start] == edited[..start]
    requires start < |original| && start < |edited| ==> original[start] != edited[start]
    requires suffix <= |original| - start && suffix <= |edited| - start
    requires original[start..][|original| - start - suffix..] == edited[start..][|edited| - start - suffix..]
    ensures IsShapeOf(Middles(original, edited, start, suffix), original, edited)
  {
    DropDrop(original, start, |original| - start - suffix);
    DropDrop(edited, start, |edited| - start - suffix);
    assert edited == edited[..start] + edited[start..|edited| - suffix] + edited[|edited| - suffix..];
  }

  lemma DropDrop(s: string, a: nat, b: nat)
    requires a + b <= |s|
    ensures s[a..][b..] == s[a + b..]
  {
  }

  // ----- the rewrite it is turned into

  datatype Rewrite =
    | TextOnce(removed: string, inserted: string)
    | InJsProperty(property: string, removed: string, inserted: string)
    | InCssDeclaration(property: string, removed: string, inserted: string)
    | InHtmlAttribute(selector: string, attribute: string, removed: string, inserted: string)
    | JsonPatch(operations: seq<JsonOperation>, patch: string, contentType: string)

  function LanguageOf(contentType: Option<string>): Language {
    match contentType
    case None => PlainText
    case Some(c) =>
      var name := Lower(Trim(Before(c, ';')));
      if name in ["application/json", "text/json"] then Json
      else if name in ["text/html", "application/xhtml+xml"] then Html
      else if name in ["application/xml", "text/xml"] then Xml
      else if name in ["application/javascript", "text/javascript", "application/x-javascript",
                       "application/ecmascript", "text/ecmascript"] then JavaScript
      else if name == "text/css" then Css
      else if EndsWith(name, "+json") then Json
      else if EndsWith(name, "+xml") then Xml
      else PlainText
  }

  /** `replacen(.., 1)`: an empty text is found at the start. */
  function ReplaceFirst(s: string, removed: string, inserted: string): string {
    match Find(s, removed)
    case None => s
    case Some(i) => s[..i] + inserted + s[i + |removed|..]
  }

  /** A replacement inside a string literal grows to the whole literal. */
  function Grown(original: string, r: Replacement, literal: Option<(nat, nat)>): (string, string) {
    if GrowsTo(original, r, literal) then
      var text := original[literal.value.0..literal.value.1];
      (text, ReplaceFirst(text, r.removed, r.inserted))
    else (r.removed, r.inserted)
  }

  predicate GrowsTo(original: string, r: Replacement, literal: Option<(nat, nat)>) {
    && literal.Some? && literal.value.0 <= r.start && r.End() <= literal.value.1 <= |original|
    && var text := original[literal.value.0..literal.value.1];
       text != ReplaceFirst(text, r.removed, r.inserted)
  }

  function RewriteAt(original: string, r: Replacement, place: TreePlace): Rewrite {
    match place
    case Node => TextOnce(r.removed, r.inserted)
    case JsProperty(property, literal) =>
      var (removed, inserted) := Grown(original, r, literal);
      InJsProperty(property, removed, inserted)
    case CssDeclaration(property) => InCssDeclaration(property, r.removed, r.inserted)
    case HtmlAttribute(selector, attribute) => InHtmlAttribute(selector, attribute, r.removed, r.inserted)
  }

  /** Where the replacement is placed: in a tree if one is found, otherwise in the text. */
  function PlaceOf(a: Analysis, original: string, r: Replacement, contentType: Option<string>): TreePlace {
    var language := LanguageOf(contentType);
    if language.Html? || language.JavaScript? || language.Css? then a.findPlace(language, original, r).GetOr(Node)
    else Node
  }

  /** The rewrite for a changed text; without one the whole body is set. */
  function TextRewrite(a: Analysis, original: string, edited: string, contentType: Option<string>): Option<Rewrite> {
    if original == edited then None
    else match SingleReplacement(original, edited)
      case None => None
      case Some(r) => Some(RewriteAt(original, r, PlaceOf(a, original, r, contentType)))
  }

  const JSON_TEXT := "application/json; charset=utf-8"

  /** The rewrite that takes the place of setting the body, if there is one. */
  function RewriteFor(a: Analysis, original: Message, edited: Message): Option<Rewrite> {
    var operations := a.operations(original.body, edited.body);
    if operations != [] && edited.BodyText().Some? then
      Some(JsonPatch(operations, a.render(operations), edited.BodyContentType().GetOr(JSON_TEXT)))
    else if original.BodyText().Some? && edited.BodyText().Some? then
      TextRewrite(a, original.BodyText().value, edited.BodyText().value,
                  if original.BodyContentType().Some? then original.BodyContentType() else edited.BodyContentType())
    else None
  }

  // ----- running rewrites

  datatype Rewritten = Rewritten(body: string, contentType: Option<string>, changed: bool)

  predicate AreNamed(body: string, named: seq<string>) {
    named == [] || (named[0] != "" && Contains(body, named[0]) && AreNamed(body, named[1..]))
  }

  /** A text rewrite is skipped unless everything it names is there. */
  function ReplaceIn(r: Rewritten, named: seq<string>, removed: string, inserted: string): Rewritten {
    if removed == "" || !Contains(r.body, removed) || !AreNamed(r.body, named) then r
    else r.(body := ReplaceFirst(r.body, removed, inserted), changed := true)
  }

  function RunRewrite(applyPatch: (string, string) -> Option<string>, r: Rewritten, rewrite: Rewrite): Rewritten {
    match rewrite
    case TextOnce(removed, inserted) => ReplaceIn(r, [], removed, inserted)
    case InJsProperty(property, removed, inserted) => ReplaceIn(r, [property], removed, inserted)
    case InCssDeclaration(property, removed, inserted) => ReplaceIn(r, [property], removed, inserted)
    case InHtmlAttribute(selector, attribute, removed, inserted) =>
      ReplaceIn(r, [selector, attribute], removed, inserted)
    case JsonPatch(_, patch, contentType) =>
      match applyPatch(r.body, patch)
      case None => r
      case Some(next) =>
        if next == r.body then r
        else Rewritten(next, if Trim(contentType) != "" then Some(contentType) else r.contentType, true)
  }

  function RunRewrites(applyPatch: (string, string) -> Option<string>, r: Rewritten, rewrites: seq<Rewrite>): Rewritten
    decreases |rewrites|
  {
    if rewrites == [] then r else RunRewrites(applyPatch, RunRewrite(applyPatch, r, rewrites[0]), rewrites[1..])
  }

  /** The rewritten body of a flow, if anything changed. */
  function RewrittenBody(
    applyPatch: (string, string) -> Option<string>, text: Option<string>, rewrites: seq<Rewrite>): Option<Rewritten>
  {
    if rewrites == [] || text.None? then None
    else
      var r := RunRewrites(applyPatch, Rewritten(text.value, None, false), rewrites);
      if r.changed then Some(r) else None
  }

  method ApplyBodyRewriteOps(
    applyPatch: (string, string) -> Option<string>, text: Option<string>, rewrites: seq<Rewrite>)
    returns (r: Option<Rewritten>)
    ensures r == RewrittenBody(applyPatch, text, rewrites)
  {
    if rewrites == [] || text.None? {
      return None;
    }
    var body, contentType, changed := text.value, None, false;
    for i := 0 to |rewrites|
      invariant RunRewrites(applyPatch, Rewritten(text.value, None, false), rewrites) ==
                RunRewrites(applyPatch, Rewritten(body, contentType, changed), rewrites[i..])
    {
      assert rewrites[i..][1..] == rewrites[i + 1..];
      var next := RunRewrite(applyPatch, Rewritten(body, contentType, changed), rewrites[i]);
      body, contentType, changed := next.body, next.contentType, next.changed;
    }
    assert rewrites[|rewrites|..] == [];
    r := if changed then Some(Rewritten(body, contentType, true)) else None;
  }

  // ----- when a rewrite arrives at the edited text

  /** Whether making the replacement at `place`, which is not behind its own start, gives the edited
      text: only at its start, unless it does nothing but remove or insert and moving it there over
      the gap makes no difference. */
  predicate LandsAt(original: string, r: Replacement, place: nat) {
    && place <= r.start <= |original|
    && var gap := original[place..r.start];
       if r.removed != "" && r.inserted != "" then place == r.start
       else r.removed + r.inserted + gap == gap + r.removed + r.inserted
  }

  lemma ReplaceElsewhere(original: string, edited: string, r: Replacement, place: nat)
    requires IsShapeOf(r, original, edited)
    requires place <= r.start && OccursAt(original, r.removed, place)
    ensures original[..place] + r.inserted + original[place + |r.removed|..] == edited <==> LandsAt(original, r, place)
  {
    var head, gap, tail := original[..place], original[place..r.start], original[r.End()..];
    var behind := original[place + |r.removed|..r.End()];
    assert original[..r.start] == head + gap;
    assert original[place + |r.removed|..] == behind + tail;
    assert gap + r.removed == original[place..r.End()] == r.removed + behind;
    Regrouped(head, r.inserted, gap, behind, tail);
    SameMiddle(head, r.inserted + behind, gap + r.inserted, tail);
    MovesOver(r, gap, behind);
  }

  lemma Regrouped(head: string, inserted: string, gap: string, behind: string, tail: string)
    ensures head + inserted + (behind + tail) == head + (inserted + behind) + tail
    ensures head + gap + inserted + tail == head + (gap + inserted) + tail
  {
  }

  lemma SameMiddle(a: string, x: string, y: string, b: string)
    ensures a + x + b == a + y + b <==> x == y
  {
    if a + x + b == a + y + b {
      assert |x| == |y|;
      assert (a + x + b)[|a|..|a| + |x|] == x;
      assert (a + y + b)[|a|..|a| + |y|] == y;
    }
  }

  lemma MovesOver(r: Replacement, gap: string, behind: string)
    requires gap + r.removed == r.removed + behind
    requires r.removed != "" && r.inserted != "" ==> r.removed[0] != r.inserted[0]
    ensures r.inserted + behind == gap + r.inserted <==>
            if r.removed != "" && r.inserted != "" then gap == ""
            else r.removed + r.inserted + gap == gap + r.removed + r.inserted
  {
    assert |gap| == |behind|;
    if r.removed == "" {
      assert gap + r.removed == gap && r.removed + behind == behind;
      assert r.removed + r.inserted == r.inserted && gap + r.removed == gap;
    } else if r.inserted == "" {
      assert r.inserted + behind == behind && gap + r.inserted == gap;
      assert r.removed + r.inserted == r.removed && gap + r.removed + r.inserted == gap + r.removed;
      if behind == gap {
        assert r.removed + gap == gap + r.removed;
      }
      if r.removed + gap == gap + r.removed {
        assert (r.removed + gap)[|r.removed|..] == gap;
        assert (r.removed + behind)[|r.removed|..] == behind;
      }
    } else if gap != "" {
      assert (gap + r.removed)[0] == gap[0] && (r.removed + behind)[0] == r.removed[0];
      assert (gap + r.inserted)[0] == gap[0] && (r.inserted + behind)[0] == r.inserted[0];
    } else {
      assert behind == "";
    }
  }

  /** Everything the place names is in the original text. */
  predicate NamesOccur(original: string, place: TreePlace) {
    match place
    case Node => true
    case JsProperty(property, _) => property != "" && Contains(original, property)
    case CssDeclaration(property) => property != "" && Contains(original, property)
    case HtmlAttribute(selector, attribute) =>
      selector != "" && Contains(original, selector) && attribute != "" && Contains(original, attribute)
  }

  /** Where the rewrite will make the replacement: at the first occurrence of what is removed, or
      inside the first occurrence of the literal around it. */
  function FirstPlace(original: string, r: Replacement, place: TreePlace): Option<nat> {
    if place.JsProperty? && GrowsTo(original, r, place.literal) then
      var text := original[place.literal.value.0..place.literal.value.1];
      if text == "" then None
      else match (Find(original, text), Find(text, r.removed))
        case (Some(i), Some(j)) => Some(i + j)
        case _ => None
    else if r.removed == "" then None
    else Find(original, r.removed)
  }

  /** When a text rewrite gives the edited text. An insertion into plain text never does. */
  predicate Arrives(original: string, r: Replacement, place: TreePlace) {
    && NamesOccur(original, place)
    && var at := FirstPlace(original, r, place);
       at.Some? && LandsAt(original, r, at.value)
  }

  /** The rewritten text is the edited one exactly then. */
  lemma RewriteArrives(
    applyPatch: (string, string) -> Option<string>, original: string, edited: string, place: TreePlace)
    requires SingleReplacement(original, edited).Some?
    ensures var r := SingleReplacement(original, edited).value;
      var out := RewrittenBody(applyPatch, Some(original), [RewriteAt(original, r, place)]);
      && (out.Some? && out.value.body == edited <==> Arrives(original, r, place))
      && (out.Some? ==> out.value.contentType == None)
  {
    hide SingleReplacement, ReplaceFirst, SearchedFor, RewriteAt, NamesOccur, FirstPlace, LandsAt, Contains, AreNamed;
    var r := SingleReplacement(original, edited).value;
    var start := Rewritten(original, None, false);
    OneRewrite(applyPatch, start, RewriteAt(original, r, place));
    RunsAs(applyPatch, start, r, place);
    ReplacementShape(original, edited);
    PlainOrGrown(original, edited, r, place);
  }

  function NamesIn(place: TreePlace): seq<string> {
    match place
    case Node => []
    case JsProperty(property, _) => [property]
    case CssDeclaration(property) => [property]
    case HtmlAttribute(selector, attribute) => [selector, attribute]
  }

  lemma RunsAs(applyPatch: (string, string) -> Option<string>, start: Rewritten, r: Replacement, place: TreePlace)
    ensures var (removed, inserted) := SearchedFor(start.body, r, place);
      RunRewrite(applyPatch, start, RewriteAt(start.body, r, place)) ==
      ReplaceIn(start, NamesIn(place), removed, inserted)
    ensures AreNamed(start.body, NamesIn(place)) <==> NamesOccur(start.body, place)
  {
    hide Contains, ReplaceIn, ReplaceFirst, AreNamed;
    match place
    case Node => NoNames(start.body);
    case JsProperty(property, _) => OneName(start.body, property);
    case CssDeclaration(property) => OneName(start.body, property);
    case HtmlAttribute(selector, attribute) => TwoNames(start.body, selector, attribute);
  }

  lemma NoNames(body: string)
    ensures AreNamed(body, [])
  {
  }

  lemma OneName(body: string, name: string)
    ensures AreNamed(body, [name]) <==> name != "" && Contains(body, name)
  {
    assert [name][1..] == [];
  }

  lemma TwoNames(body: string, a: string, b: string)
    ensures AreNamed(body, [a, b]) <==> a != "" && Contains(body, a) && b != "" && Contains(body, b)
  {
    assert [a, b][1..] == [b];
    OneName(body, b);
  }

  lemma OneRewrite(applyPatch: (string, string) -> Option<string>, r: Rewritten, rewrite: Rewrite)
    ensures RunRewrites(applyPatch, r, [rewrite]) == RunRewrite(applyPatch, r, rewrite)
  {
    assert [rewrite][1..] == [];
  }

  /** What the rewrite searches for and puts in its place. */
  function SearchedFor(original: string, r: Replacement, place: TreePlace): (string, string) {
    if place.JsProperty? then Grown(original, r, place.literal) else (r.removed, r.inserted)
  }

  lemma PlainOrGrown(original: string, edited: string, r: Replacement, place: TreePlace)
    requires IsShapeOf(r, original, edited)
    ensures var (removed, inserted) := SearchedFor(original, r, place);
      && Contains(original, removed)
      && (removed != "" && ReplaceFirst(original, removed, inserted) == edited <==>
          FirstPlace(original, r, place).Some? && LandsAt(original, r, FirstPlace(original, r, place).value))
  {
    hide LandsAt, ReplaceFirst, IsShapeOf, GrowsTo;
    if place.JsProperty? && GrowsTo(original, r, place.literal) {
      GrowsIn(original, r, place.literal);
      var (first, last) := place.literal.value;
      GrownCase(original, edited, r, first, last);
    } else {
      PlainCase(original, edited, r);
    }
  }

  lemma GrowsIn(original: string, r: Replacement, literal: Option<(nat, nat)>)
    requires GrowsTo(original, r, literal)
    ensures literal.Some? && literal.value.0 <= r.start && r.End() <= literal.value.1 <= |original|
  {
  }

  lemma PlainCase(original: string, edited: string, r: Replacement)
    requires IsShapeOf(r, original, edited)
    ensures Contains(original, r.removed)
    ensures r.removed != "" ==>
      (ReplaceFirst(original, r.removed, r.inserted) == edited <==>
       LandsAt(original, r, Find(original, r.removed).value))
  {
    assert r.End() <= |original| && original[r.start..r.End()] == r.removed;
    hide LandsAt, ReplaceFirst, IsShapeOf;
    FirstIsNotBehind(original, r.removed, r.start);
    FirstAt(original, r.removed, r.inserted);
    ReplaceElsewhere(original, edited, r, Find(original, r.removed).value);
  }

  lemma GrownCase(original: string, edited: string, r: Replacement, first: nat, last: nat)
    requires IsShapeOf(r, original, edited) && first <= r.start && r.End() <= last <= |original|
    ensures var text := original[first..last];
      && Find(original, text).Some? && Find(text, r.removed).Some?
      && (ReplaceFirst(original, text, ReplaceFirst(text, r.removed, r.inserted)) == edited <==>
          LandsAt(original, r, Find(original, text).value + Find(text, r.removed).value))
  {
    assert r.End() <= |original| && original[r.start..r.End()] == r.removed;
    hide LandsAt, ReplaceFirst, IsShapeOf;
    var text := original[first..last];
    LiteralIsFound(original, r, first, last);
    GrownRewrite(original, edited, r, text, Find(original, text).value, Find(text, r.removed).value);
  }

  lemma FirstAt(s: string, removed: string, inserted: string)
    requires Find(s, removed).Some?
    ensures var i := Find(s, removed).value;
      i + |removed| <= |s| && ReplaceFirst(s, removed, inserted) == s[..i] + inserted + s[i + |removed|..]
  {
  }

  lemma FirstIsNotBehind(s: string, piece: string, at: nat)
    requires at + |piece| <= |s| && s[at..at + |piece|] == piece
    ensures Find(s, piece).Some? && Find(s, piece).value <= at
  {
    assert OccursAt(s, piece, at);
  }

  /** The first occurrence of a literal, and in it that of what is removed. */
  lemma LiteralIsFound(original: string, r: Replacement, first: nat, last: nat)
    requires r.End() <= |original| && original[r.start..r.End()] == r.removed
    requires first <= r.start && r.End() <= last <= |original|
    ensures var text := original[first..last];
      && Find(original, text).Some? && Find(text, r.removed).Some?
      && Find(original, text).value + Find(text, r.removed).value <= r.start
  {
    var text := original[first..last];
    SliceOfSlice(original, first, last, r.start - first, r.End() - first);
    FirstIsNotBehind(original, text, first);
    FirstIsNotBehind(text, r.removed, r.start - first);
  }

  /** Replacing inside the first occurrence of a literal. */
  lemma GrownRewrite(original: string, edited: string, r: Replacement, text: string, i: nat, j: nat)
    requires IsShapeOf(r, original, edited)
    requires Find(original, text) == Some(i) && Find(text, r.removed) == Some(j) && i + j <= r.start
    ensures ReplaceFirst(original, text, ReplaceFirst(text, r.removed, r.inserted)) == edited <==>
            LandsAt(original, r, i + j)
  {
    hide LandsAt, ReplaceFirst, IsShapeOf;
    InnerReplace(original, text, i, r.removed, j, r.inserted);
    FirstAt(text, r.removed, r.inserted);
    FirstAt(original, text, ReplaceFirst(text, r.removed, r.inserted));
    ReplaceElsewhere(original, edited, r, i + j);
  }

  lemma InnerReplace(s: string, text: string, i: nat, removed: string, j: nat, inserted: string)
    requires OccursAt(s, text, i) && OccursAt(text, removed, j)
    ensures OccursAt(s, removed, i + j)
    ensures s[..i] + (text[..j] + inserted + text[j + |removed|..]) + s[i + |text|..] ==
            s[..i + j] + inserted + s[i + j + |removed|..]
  {
    SliceOfSlice(s, i, i + |text|, j, j + |removed|);
    SliceOfSlice(s, i, i + |text|, 0, j);
    SliceOfSlice(s, i, i + |text|, j + |removed|, |text|);
    assert text[0..j] == text[..j] && text[j + |removed|..|text|] == text[j + |removed|..];
    assert s[..i + j] == s[..i] + s[i..i + j];
    assert s[i + j + |removed|..] == s[i + j + |removed|..i + |text|] + s[i + |text|..];
  }

  // ----- special cases

  /** An insertion outside a string literal never arrives: there is nothing to search for. */
  lemma InsertingNeverArrives(original: string, r: Replacement, place: TreePlace)
    requires r.removed == "" && (place.JsProperty? ==> !GrowsTo(original, r, place.literal))
    ensures !Arrives(original, r, place)
  {
  }

  /** A removal arrives when moving the removed text over the gap to its first occurrence changes
      nothing, as when the edit removes one of several repetitions in a row. */
  lemma RemovingArrives(original: string, r: Replacement)
    requires r.End() <= |original| && original[r.start..r.End()] == r.removed && r.removed != "" && r.inserted == ""
    ensures Find(original, r.removed).Some? && Find(original, r.removed).value <= r.start
    ensures var gap := original[Find(original, r.removed).value..r.start];
      Arrives(original, r, Node) <==> r.removed + gap == gap + r.removed
  {
    FirstIsNotBehind(original, r.removed, r.start);
    var gap := original[Find(original, r.removed).value..r.start];
    assert r.removed + "" + gap == r.removed + gap && gap + r.removed + "" == gap + r.removed;
  }

  /** With something removed and something inserted, the removed text must not occur any earlier. */
  lemma ReplacingArrives(original: string, r: Replacement)
    requires r.End() <= |original| && original[r.start..r.End()] == r.removed && r.removed != "" && r.inserted != ""
    ensures Arrives(original, r, Node) <==> Find(original, r.removed) == Some(r.start)
  {
    FirstIsNotBehind(original, r.removed, r.start);
  }

  lemma {:induction false} PrefixIs(prefix: string, a: string, b: string)
    requires a == "" || b == "" || a[0] != b[0]
    ensures CommonPrefix(prefix + a, prefix + b) == |prefix|
  {
    if prefix == "" {
      assert prefix + a == a && prefix + b == b;
    } else {
      assert (prefix + a)[1..] == prefix[1..] + a && (prefix + b)[1..] == prefix[1..] + b;
      PrefixIs(prefix[1..], a, b);
    }
  }

  lemma SuffixSnoc(a: string, b: string, c: char)
    ensures CommonSuffix(a + [c], b + [c]) == 1 + CommonSuffix(a, b)
  {
    assert (a + [c])[..|a|] == a && (b + [c])[..|b|] == b;
  }

  lemma {:induction false} SuffixIs(a: string, b: string, suffix: string)
    requires a == "" || b == "" || a[|a| - 1] != b[|b| - 1]
    ensures CommonSuffix(a + suffix, b + suffix) == |suffix|
  {
    if suffix == "" {
      assert a + suffix == a && b + suffix == b;
    } else {
      var init, last := suffix[..|suffix| - 1], suffix[|suffix| - 1];
      assert a + suffix == a + init + [last] && b + suffix == b + init + [last];
      SuffixIs(a, b, init);
      SuffixSnoc(a + init, b + init, last);
    }
  }

  /** A replacement whose ends differ, or one at the end of the text, is found as it is. */
  lemma ReplacementIs(prefix: string, removed: string, inserted: string, suffix: string)
    requires ByteLength(removed) <= MAX_REPLACEMENT && ByteLength(inserted) <= MAX_REPLACEMENT
    requires removed != "" && inserted != "" ==>
      removed[0] != inserted[0] && removed[|removed| - 1] != inserted[|inserted| - 1]
    requires removed == "" || inserted == "" ==> suffix == "" && removed != inserted
    ensures SingleReplacement(prefix + (removed + suffix), prefix + (inserted + suffix)) ==
            Some(Replacement(|prefix|, removed, inserted))
  {
    hide ByteLength, CommonPrefix, CommonSuffix, Limited;
    assert Limited(Replacement(|prefix|, removed, inserted)).Some? by {
      NotLimited(Replacement(|prefix|, removed, inserted));
    }
    assert removed != "" ==> (removed + suffix)[0] == removed[0];
    assert inserted != "" ==> (inserted + suffix)[0] == inserted[0];
    PrefixIs(prefix, removed + suffix, inserted + suffix);
    SuffixIs(removed, inserted, suffix);
    MiddleIs(prefix, removed, suffix);
    MiddleIs(prefix, inserted, suffix);
  }

  lemma NotLimited(r: Replacement)
    requires ByteLength(r.removed) <= MAX_REPLACEMENT && ByteLength(r.inserted) <= MAX_REPLACEMENT
    requires r.removed != "" || r.inserted != ""
    ensures Limited(r) == Some(r)
  {
  }

  lemma MiddleIs(prefix: string, middle: string, suffix: string)
    ensures var s := prefix + (middle + suffix);
      && s[|prefix|..] == middle + suffix
      && s[|prefix|..|s| - |suffix|] == middle
  {
  }

  lemma {:induction false} PositionAtMost(s: string, i: nat)
    requires i <= |s|
    ensures BytePosition(s, i) <= 4 * i
  {
    if i > 0 {
      PositionAtMost(s, i - 1);
    }
  }

  lemma BytesAtMost(s: string, n: nat)
    requires |s| == n
    ensures ByteLength(s) <= 4 * n
  {
    PositionAtMost(s, n);
  }

  /** Text inserted into a plain text is lost. */
  lemma InsertionIsLost(applyPatch: (string, string) -> Option<string>)
    ensures SingleReplacement("hello", "hello world") == Some(Replacement(5, "", " world"))
    ensures RewrittenBody(applyPatch, Some("hello"), [TextOnce("", " world")]) == None
  {
    hide SingleReplacement, ByteLength, BytePosition, RunRewrites;
    BytesAtMost("", 0);
    BytesAtMost(" world", 6);
    ReplacementIs("hello", "", " world", "");
    assert "hello" + ("" + "") == "hello" && "hello" + (" world" + "") == "hello world";
    OneRewrite(applyPatch, Rewritten("hello", None, false), TextOnce("", " world"));
  }

  /** The first of two equal pieces is rewritten although the second was edited. */
  lemma WrongPieceIsRewritten(applyPatch: (string, string) -> Option<string>)
    ensures SingleReplacement("a=1&b=1", "a=1&b=2") == Some(Replacement(6, "1", "2"))
    ensures RewrittenBody(applyPatch, Some("a=1&b=1"), [TextOnce("1", "2")]) == Some(Rewritten("a=2&b=1", None, true))
  {
    hide SingleReplacement, ByteLength, BytePosition, RunRewrites, ReplaceFirst, Find, AreNamed;
    BytesAtMost("1", 1);
    BytesAtMost("2", 1);
    ReplacementIs("a=1&b=", "1", "2", "");
    assert "a=1&b=" + ("1" + "") == "a=1&b=1" && "a=1&b=" + ("2" + "") == "a=1&b=2";
    OneRewrite(applyPatch, Rewritten("a=1&b=1", None, false), TextOnce("1", "2"));
    NoNames("a=1&b=1");
    FoundThere("a=", '1', "&b=1");
    assert "a=" + ['1'] + "&b=1" == "a=1&b=1" && ['1'] == "1";
    FirstAt("a=1&b=1", "1", "2");
    assert "a=1&b=1"[..2] + "2" + "a=1&b=1"[3..] == "a=2&b=1";
  }

  lemma FoundThere(before: string, c: char, after: string)
    requires c !in before
    ensures Find(before + [c] + after, [c]) == Some(|before|)
  {
    var s := before + [c] + after;
    assert OccursAt(s, [c], |before|);
    forall j: nat | j < |before| ensures !OccursAt(s, [c], j) {
      assert s[j..j + 1][0] == before[j];
    }
  }
}
