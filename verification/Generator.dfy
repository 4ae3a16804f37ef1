/** Filters generated from an edit (src/filters/generator.rs, src/filters/editor.rs): when they fire
    and what they do to the message they were made from. */
module Generator {
  import opened Wrappers
  import opened Text
  import opened Numbers
  import opened Glob
  import opened Triggers
  import opened Messages
  import opened BodyRewrite
  import opened Edits
  import opened HeaderPatch

  // ----- captured traffic

  datatype Payload = Payload(text: Option<string>, contentType: Option<string>, bytesLen: nat) {
    function AsBody(): Body {
      if text.Some? then TextBody(text.value, contentType)
      else if bytesLen == 0 then EmptyBody
      else BinaryBody(bytesLen, contentType)
    }
  }

  datatype FilterRequest = FilterRequest(
    verb: string, scheme: string, host: string, path: string, query: string, headers: seq<Header>, body: Payload)
  {
    function View(): RequestView {
      RequestView(host, path, verb)
    }
  }

  datatype FilterResponse = FilterResponse(status: U16, headers: seq<Header>, body: Payload)

  function FromRequest(r: FilterRequest): Message {
    Message(Request, Some(r.verb), Some(r.scheme), r.host, r.path, r.query, None, r.headers, r.body.AsBody())
  }

  function FromResponse(r: FilterRequest, s: FilterResponse): Message {
    Message(Response, None, Some(r.scheme), r.host, r.path, r.query, Some(s.status), s.headers, s.body.AsBody())
  }

  // ----- the generated filter

  datatype Condition =
    | PathIs(path: string)
    | QueryContains(text: string)
    | VerbIs(verb: string)
    | StatusIs(status: U16)
    | ContentTypeContains(text: string)
    | BodyContains(text: string)

  datatype GeneratedFilter = GeneratedFilter(
    name: string, phase: Kind, hosts: seq<string>, paths: seq<string>, verbs: seq<string>,
    conditions: seq<Condition>, actions: seq<Action>)
  {
    function AsTrigger(): Trigger {
      Trigger(hosts, paths, verbs, [if phase.Request? then RequestPhase else ResponsePhase])
    }
  }

  /** A condition on the request, as the filter script evaluates it. */
  predicate HoldsOfRequest(c: Condition, r: FilterRequest) {
    match c
    case PathIs(path) => r.path == path
    case QueryContains(text) => Contains(r.query, text)
    case VerbIs(verb) => r.verb == verb
    case _ => false
  }

  /** A condition on the response; the text of a binary body reads as empty. */
  predicate HoldsOfResponse(c: Condition, s: FilterResponse) {
    match c
    case StatusIs(status) => s.status == status
    case ContentTypeContains(text) => Contains(s.body.contentType.GetOr(""), text)
    case BodyContains(text) => Contains(s.body.text.GetOr(""), text)
    case _ => false
  }

  ghost predicate FiresOnRequest(f: GeneratedFilter, r: FilterRequest) {
    f.AsTrigger().Matches(RequestPhase, r.View()) && forall c :: c in f.conditions ==> HoldsOfRequest(c, r)
  }

  ghost predicate FiresOnResponse(f: GeneratedFilter, r: FilterRequest, s: FilterResponse) {
    f.AsTrigger().Matches(ResponsePhase, r.View()) && forall c :: c in f.conditions ==> HoldsOfResponse(c, s)
  }

  // ----- its trigger and conditions

  function PathTrigger(path: string): string {
    if path == "/" || path == "" then "*"
    else if EndsWith(path, "/") then path + "*"
    else match LastIndexOf(path, '/')
      case None => "*"
      case Some(i) => if i == 0 then "/*" else path[..i] + "/*"
  }

  function ContentTypePrefix(contentType: string): string {
    Trim(Before(contentType, ';'))
  }

  const MIN_ANCHOR_CHARS := 8
  const MAX_ANCHOR_CHARS := 96

  function Take(s: string, n: nat): string {
    if |s| <= n then s else s[..n]
  }

  /** The start of the first long enough line that the edited text still contains. */
  function SharedAnchor(lines: seq<string>, edited: string): Option<string> {
    if lines == [] then None
    else
      var line := Trim(lines[0]);
      if |line| >= MIN_ANCHOR_CHARS && Contains(edited, Take(line, MAX_ANCHOR_CHARS)) then
        Some(Take(line, MAX_ANCHOR_CHARS))
      else SharedAnchor(lines[1..], edited)
  }

  function TextAnchor(original: string, edited: string): Option<string> {
    match SharedAnchor(Lines(original), edited)
    case Some(anchor) => Some(anchor)
    case None =>
      var anchor := Take(original, MAX_ANCHOR_CHARS);
      if |anchor| >= MIN_ANCHOR_CHARS then Some(anchor) else None
  }

  /** At least eight characters, and the first 96 of them still occur. */
  predicate IsAnchorLine(line: string, edited: string) {
    |Trim(line)| >= 8 && Contains(edited, Take(Trim(line), 96))
  }

  predicate IsFirstAnchorLine(lines: seq<string>, i: int, edited: string) {
    0 <= i < |lines| && IsAnchorLine(lines[i], edited) && forall j :: 0 <= j < i ==> !IsAnchorLine(lines[j], edited)
  }

  lemma {:induction false} SharedAnchorIsFirst(lines: seq<string>, edited: string)
    ensures forall i :: IsFirstAnchorLine(lines, i, edited) ==>
      SharedAnchor(lines, edited) == Some(Take(Trim(lines[i]), 96))
    ensures (forall l :: l in lines ==> !IsAnchorLine(l, edited)) ==> SharedAnchor(lines, edited).None?
  {
    hide Trim, Contains, Take;
    if lines != [] {
      assert lines[0] in lines;
      SharedAnchorIsFirst(lines[1..], edited);
      forall i | IsFirstAnchorLine(lines, i, edited)
        ensures SharedAnchor(lines, edited) == Some(Take(Trim(lines[i]), 96))
      {
        if i > 0 {
          assert !IsAnchorLine(lines[0], edited);
          assert IsFirstAnchorLine(lines[1..], i - 1, edited);
        }
      }
    }
  }

  lemma TextAnchorIs(original: string, edited: string)
    ensures forall i :: IsFirstAnchorLine(Lines(original), i, edited) ==>
      TextAnchor(original, edited) == Some(Take(Trim(Lines(original)[i]), 96))
    ensures (forall l :: l in Lines(original) ==> !IsAnchorLine(l, edited)) ==>
      TextAnchor(original, edited) == if |original| >= 8 then Some(Take(original, 96)) else None
  {
    hide Lines, Trim, Contains, IsAnchorLine, IsFirstAnchorLine;
    SharedAnchorIsFirst(Lines(original), edited);
  }

  /** The start of the first line that is long enough and shared, or else the start of the whole text. */
  method CommonTextAnchor(original: string, edited: string) returns (anchor: Option<string>)
    ensures anchor == TextAnchor(original, edited)
    ensures anchor.Some? ==> Contains(original, anchor.value) && 8 <= |anchor.value| <= 96
    ensures forall i :: IsFirstAnchorLine(Lines(original), i, edited) ==>
      anchor == Some(Take(Trim(Lines(original)[i]), 96))
    ensures (forall l :: l in Lines(original) ==> !IsAnchorLine(l, edited)) ==>
      anchor == if |original| >= 8 then Some(Take(original, 96)) else None
  {
    hide Lines, Trim, Contains, IsAnchorLine, IsFirstAnchorLine;
    TextAnchorOccurs(original, edited);
    TextAnchorIs(original, edited);
    var lines := Lines(original);
    for i := 0 to |lines|
      invariant SharedAnchor(lines[i..], edited) == SharedAnchor(lines, edited)
    {
      var line := Trim(lines[i]);
      if |line| < MIN_ANCHOR_CHARS {
        continue;
      }
      var candidate := Take(line, MAX_ANCHOR_CHARS);
      if Contains(edited, candidate) {
        return Some(candidate);
      }
    }
    var fallback := Take(original, MAX_ANCHOR_CHARS);
    if |fallback| >= MIN_ANCHOR_CHARS {
      return Some(fallback);
    }
    return None;
  }

  lemma ContainsTake(s: string, n: nat)
    ensures Contains(s, Take(s, n))
  {
    assert Take(s, n) == s[0..|Take(s, n)|];
    ContainsSlice(s, 0, |Take(s, n)|);
  }

  lemma {:induction false} SharedAnchorOccurs(lines: seq<string>, original: string, edited: string)
    requires forall l :: l in lines ==> Contains(original, l)
    requires SharedAnchor(lines, edited).Some?
    ensures var a := SharedAnchor(lines, edited).value;
      Contains(original, a) && Contains(edited, a) && 8 <= |a| <= 96
  {
    var line := Trim(lines[0]);
    assert lines[0] in lines;
    ContainsTrim(lines[0]);
    ContainsTake(line, MAX_ANCHOR_CHARS);
    ContainsTrans(lines[0], line, Take(line, MAX_ANCHOR_CHARS));
    ContainsTrans(original, lines[0], Take(line, MAX_ANCHOR_CHARS));
    if |line| < MIN_ANCHOR_CHARS || !Contains(edited, Take(line, MAX_ANCHOR_CHARS)) {
      SharedAnchorOccurs(lines[1..], original, edited);
    }
  }

  /** Whatever anchor is chosen, it occurs in the original text. */
  lemma TextAnchorOccurs(original: string, edited: string)
    ensures var a := TextAnchor(original, edited);
      a.Some? ==> Contains(original, a.value) && 8 <= |a.value| <= 96
  {
    forall l | l in Lines(original) ensures Contains(original, l) { ContainsLine(original, l); }
    if SharedAnchor(Lines(original), edited).Some? {
      SharedAnchorOccurs(Lines(original), original, edited);
    } else {
      ContainsTake(original, MAX_ANCHOR_CHARS);
    }
  }

  function BodyAnchor(originalText: Option<string>, editedText: Option<string>): seq<Condition> {
    match (originalText, editedText)
    case (Some(o), Some(e)) =>
      if Trim(o) == "" || Trim(o) == Trim(e) then []
      else (match TextAnchor(Trim(o), Trim(e)) case None => [] case Some(a) => [BodyContains(a)])
    case _ => []
  }

  // ----- filters from edits

  const PLAIN_TEXT := "text/plain; charset=utf-8"

  function RequestFilter(name: string, mark: string, original: Message, edited: Message): GeneratedFilter {
    var verb, editedVerb := original.verb.GetOr("GET"), edited.verb.GetOr("GET");
    GeneratedFilter(
      name, Request,
      [if Trim(original.host) != "" then original.host else edited.host],
      [PathTrigger(original.path)],
      [verb],
      [PathIs(original.path)]
      + (if original.query != "" then [QueryContains(original.query)] else [])
      + (if verb != editedVerb then [VerbIs(verb)] else []),
      [Mark(mark)] + BodyActions(Request, original, edited, PLAIN_TEXT))
  }

  function BodyActions(kind: Kind, original: Message, edited: Message, contentType: string): seq<Action> {
    if original.BodyText() != edited.BodyText() && edited.BodyText().Some? then
      [SetBody(kind, edited.BodyText().value, contentType)]
    else []
  }

  function ResponseFilter(
    name: string, mark: string, request: Message, original: Message, edited: Message): GeneratedFilter
    requires original.status.Some? && edited.status.Some?
  {
    var contentType := original.BodyContentType();
    GeneratedFilter(
      name, Response,
      [request.host], [PathTrigger(request.path)], [request.verb.GetOr("GET")],
      [StatusIs(original.status.value)]
      + (if contentType.Some? && Trim(contentType.value) != "" then
           [ContentTypeContains(ContentTypePrefix(contentType.value))]
         else [])
      + BodyAnchor(original.BodyText(), edited.BodyText()),
      [Mark(mark)]
      + (if original.status != edited.status then [SetStatus(edited.status.value)] else [])
      + BodyActions(Response, original, edited, ResponseContentType(original, edited)))
  }

  /** Removing the host header of a request also drops the client response. */
  function HostRemoved(diff: Diff): seq<Action> {
    if exists h :: h in diff.removed && EqIgnoreCase(h.name, "host") then [Drop] else []
  }

  /** The host header is removed when the edit leaves none of that name. */
  lemma HostRemovedExactly(original: Message, edited: Message)
    ensures HostRemoved(DiffOf(original, edited)) == [] || HostRemoved(DiffOf(original, edited)) == [Drop]
    ensures HostRemoved(DiffOf(original, edited)) == [Drop] <==>
            ValuesOf(original.headers, "host") != [] && ValuesOf(edited.headers, "host") == []
  {
    hide ValuesOf, Missing, Changed;
    var removed := DiffOf(original, edited).removed;
    HostIsLower();
    ValuesOfMissing(original.headers, edited.headers, "host");
    ValuesOfKey(removed, "host");
    if "host" in KeysOf(removed) {
      var h :| h in removed && Lower(h.name) == "host";
    }
  }

  lemma HostIsLower()
    ensures Lower("host") == "host"
  {
  }

  predicate IsBodyAction(kind: Kind, action: Action) {
    (action.SetBody? || action.RewriteBody?) && action.target == kind
  }

  /** The actions that leave the body alone. */
  function WithoutBody(kind: Kind, actions: seq<Action>): seq<Action> {
    if actions == [] then []
    else (if IsBodyAction(kind, actions[0]) then [] else [actions[0]]) + WithoutBody(kind, actions[1..])
  }

  method RetainOthers(kind: Kind, actions: seq<Action>) returns (kept: seq<Action>)
    ensures kept == WithoutBody(kind, actions)
  {
    kept := [];
    for i := 0 to |actions|
      invariant kept + WithoutBody(kind, actions[i..]) == WithoutBody(kind, actions)
    {
      assert actions[i..][1..] == actions[i + 1..];
      if !IsBodyAction(kind, actions[i]) {
        SeqAssoc(kept, [actions[i]], WithoutBody(kind, actions[i + 1..]));
        kept := kept + [actions[i]];
      } else {
        assert [] + WithoutBody(kind, actions[i + 1..]) == WithoutBody(kind, actions[i + 1..]);
      }
    }
    assert actions[|actions|..] == [] && kept + [] == kept;
  }

  /** A rewrite takes the place of what would be done to the body. */
  function ReplaceBodyAction(kind: Kind, actions: seq<Action>, rewrite: Option<Rewrite>): seq<Action> {
    match rewrite
    case None => actions
    case Some(r) => WithoutBody(kind, actions) + [RewriteBody(kind, r)]
  }

  function RequestActions(name: string, mark: string, original: Message, edited: Message): seq<Action> {
    var diff := DiffOf(original, edited);
    RequestFilter(name, mark, original, edited).actions + HeaderActionsOf(diff) + HostRemoved(diff)
  }

  function ExtractRequestFilter(
    a: Analysis, name: string, mark: string, original: Message, edited: Message): Option<GeneratedFilter>
  {
    if !original.kind.Request? || !edited.kind.Request? || !DiffOf(original, edited).HasChanges() then None
    else
      Some(RequestFilter(name, mark, original, edited).(
           actions := ReplaceBodyAction(
             Request, RequestActions(name, mark, original, edited), RewriteFor(a, original, edited))))
  }

  function ResponseActions(
    name: string, mark: string, request: Message, original: Message, edited: Message): seq<Action>
    requires original.status.Some? && edited.status.Some?
  {
    ResponseFilter(name, mark, request, original, edited).actions + HeaderActionsOf(DiffOf(original, edited))
  }

  function ExtractResponseFilter(
    a: Analysis, name: string, mark: string, request: Message, original: Message, edited: Message)
    : Option<GeneratedFilter>
  {
    if !original.kind.Response? || !edited.kind.Response? || !DiffOf(original, edited).HasChanges() then None
    else if original.status.None? || edited.status.None? then None
    else
      Some(ResponseFilter(name, mark, request, original, edited).(
           actions := ReplaceBodyAction(
             Response, ResponseActions(name, mark, request, original, edited), RewriteFor(a, original, edited))))
  }

  // ----- the filter fires on the flow it came from

  lemma LowerConcat3(a: string, b: string)
    ensures Lower(a + b) == Lower(a) + Lower(b)
    ensures Lower("*") == "*" && Lower("/*") == "/*"
  {
  }

  lemma AnyTextMatchesStar(v: string)
    ensures Lang("*", v)
  {
    assert v[|v|..] == "" && "*"[1..] == "";
  }

  lemma PrefixStarMatches(prefix: string, path: string)
    requires prefix <= path
    ensures Accepts(Lower(prefix + "*"), Lower(path))
  {
    var rest := path[|prefix|..];
    LowerConcat3(prefix, "*");
    LowerConcat(prefix, rest);
    assert prefix + rest == path;
    LangSelf(Lower(prefix));
    AnyTextMatchesStar(Lower(rest));
    LangConcat(Lower(prefix), "*", Lower(prefix), Lower(rest));
  }

  lemma PathTriggerMatches(path: string)
    ensures Accepts(Lower(PathTrigger(path)), Lower(path))
  {
    LowerConcat3("", "");
    AcceptsStar(Lower(path));
    if EndsWith(path, "/") {
      PrefixStarMatches(path, path);
    } else if LastIndexOf(path, '/').Some? {
      var i := LastIndexOf(path, '/').value;
      assert path[..i + 1] == path[..i] + "/";
      assert path[..i + 1] + "*" == path[..i] + "/*";
      PrefixStarMatches(path[..i + 1], path);
      assert i == 0 ==> path[..i] + "/*" == "/*";
    }
  }

  lemma SingleTriggers(hosts: seq<string>, path: string, verb: string, phase: Phase, req: RequestView)
    requires |hosts| == 1 && req.path == path && req.verb == verb
    ensures Trigger(hosts, [PathTrigger(path)], [verb], [phase]).Matches(phase, req) <==>
            Accepts(Lower(hosts[0]), Lower(req.host))
  {
    LowerTwice(req.host);
    PathTriggerMatches(path);
    assert hosts[0] in hosts;
    assert PathTrigger(path) in [PathTrigger(path)];
    assert verb in [verb];
  }

  /** A filter extracted from an edited request fires on that very request, unless the captured host
      was blank and the edited host is a pattern the captured host does not match. */
  lemma RequestFilterFires(a: Analysis, name: string, mark: string, r: FilterRequest, edited: Message)
    requires ExtractRequestFilter(a, name, mark, FromRequest(r), edited).Some?
    ensures FiresOnRequest(ExtractRequestFilter(a, name, mark, FromRequest(r), edited).value, r) <==>
            Trim(r.host) != "" || Accepts(Lower(edited.host), Lower(r.host))
  {
    hide Accepts, MatchesAnyGlob, PathTrigger, EqIgnoreCase;
    var f := RequestFilter(name, mark, FromRequest(r), edited);
    SingleTriggers(f.hosts, r.path, r.verb, RequestPhase, r.View());
    AcceptsSelf(Lower(r.host));
    ContainsSlice(r.query, 0, |r.query|);
    assert r.query[0..|r.query|] == r.query;
  }

  /** A request without a host that is given the host "x" does not fire its own filter. */
  lemma BlankHostDoesNotFire(a: Analysis, name: string, mark: string, r: FilterRequest, edited: Message)
    requires r.host == "" && edited.kind.Request? && edited.host == "x"
    ensures ExtractRequestFilter(a, name, mark, FromRequest(r), edited).Some?
    ensures !FiresOnRequest(ExtractRequestFilter(a, name, mark, FromRequest(r), edited).value, r)
  {
    hide FiresOnRequest, ReplaceBodyAction;
    RequestFilterFires(a, name, mark, r, edited);
    assert Lower("x") == "x" && Lower("") == "" && Trim("") == "";
    assert !Lang("x", "");
  }

  lemma ContentTypePrefixOccurs(contentType: string)
    ensures Contains(contentType, ContentTypePrefix(contentType))
  {
    var piece := Before(contentType, ';');
    assert piece == contentType[0..|piece|];
    ContainsSlice(contentType, 0, |piece|);
    ContainsTrim(piece);
    ContainsTrans(contentType, piece, Trim(piece));
  }

  lemma BodyAnchorHolds(original: Option<string>, edited: Option<string>)
    ensures forall c :: c in BodyAnchor(original, edited) ==>
              c.BodyContains? && original.Some? && Contains(original.value, c.text)
  {
    if original.Some? && edited.Some? {
      var o, e := Trim(original.value), Trim(edited.value);
      TextAnchorOccurs(o, e);
      if TextAnchor(o, e).Some? {
        ContainsTrim(original.value);
        ContainsTrans(original.value, o, TextAnchor(o, e).value);
      }
    }
  }

  lemma ResponseConditionsHold(name: string, mark: string, r: FilterRequest, s: FilterResponse, edited: Message)
    requires edited.status.Some?
    ensures forall c :: c in ResponseFilter(name, mark, FromRequest(r), FromResponse(r, s), edited).conditions ==>
              HoldsOfResponse(c, s)
  {
    hide Trim, Contains, TextAnchor, BodyAnchor, ContentTypePrefix;
    var original := FromResponse(r, s);
    assert original.BodyText() == s.body.text;
    BodyAnchorHolds(original.BodyText(), edited.BodyText());
    if original.BodyContentType().Some? {
      assert original.BodyContentType() == s.body.contentType;
      ContentTypePrefixOccurs(original.BodyContentType().value);
    }
  }

  /** A filter extracted from an edited response fires on the flow it came from. */
  lemma ResponseFilterFires(
    a: Analysis, name: string, mark: string, r: FilterRequest, s: FilterResponse, edited: Message)
    requires ExtractResponseFilter(a, name, mark, FromRequest(r), FromResponse(r, s), edited).Some?
    ensures FiresOnResponse(
      ExtractResponseFilter(a, name, mark, FromRequest(r), FromResponse(r, s), edited).value, r, s)
  {
    var f := ResponseFilter(name, mark, FromRequest(r), FromResponse(r, s), edited);
    SingleTriggers(f.hosts, r.path, r.verb, ResponsePhase, r.View());
    AcceptsSelf(Lower(r.host));
    ResponseConditionsHold(name, mark, r, s, edited);
  }

  // ----- and on which others

  lemma SingleTriggerMatches(host: string, path: string, verb: string, phase: Phase, req: RequestView)
    ensures Trigger([host], [path], [verb], [phase]).Matches(phase, req) <==>
      && Accepts(Lower(host), Lower(req.host)) && Accepts(Lower(path), Lower(req.path)) && EqIgnoreCase(verb, req.verb)
  {
    LowerTwice(req.host);
    assert host in [host] && path in [path] && verb in [verb];
  }

  /** The conditions of a request filter hold of the same path, with the query inside, by the same
      method if that was edited. */
  lemma RequestConditionsExactly(name: string, mark: string, original: Message, edited: Message, q: FilterRequest)
    ensures (forall c :: c in RequestFilter(name, mark, original, edited).conditions ==> HoldsOfRequest(c, q)) <==>
      && q.path == original.path && Contains(q.query, original.query)
      && (original.verb.GetOr("GET") != edited.verb.GetOr("GET") ==> q.verb == original.verb.GetOr("GET"))
  {
    var cs := RequestFilter(name, mark, original, edited).conditions;
    var verb := original.verb.GetOr("GET");
    ContainsSlice(q.query, 0, 0);
    assert q.query[0..0] == "";
    assert PathIs(original.path) in cs;
    assert original.query != "" ==> QueryContains(original.query) in cs;
    assert verb != edited.verb.GetOr("GET") ==> VerbIs(verb) in cs;
  }

  /** A filter extracted from an edited request fires on exactly these requests: the captured host, or
      the edited one if that was blank, taken as a pattern, matches; the path is the captured one; the
      query contains the captured one; and the method is the captured one, ignoring case unless it was
      edited. */
  lemma RequestFilterFiresExactly(
    a: Analysis, name: string, mark: string, original: Message, edited: Message, q: FilterRequest)
    requires ExtractRequestFilter(a, name, mark, original, edited).Some?
    ensures var host := if Trim(original.host) == "" then edited.host else original.host;
      var verb := original.verb.GetOr("GET");
      FiresOnRequest(ExtractRequestFilter(a, name, mark, original, edited).value, q) <==>
      && Accepts(Lower(host), Lower(q.host))
      && q.path == original.path
      && Contains(q.query, original.query)
      && (if edited.verb.GetOr("GET") == verb then EqIgnoreCase(q.verb, verb) else q.verb == verb)
  {
    hide Accepts, Contains, PathTrigger, DiffOf, RewriteFor, Trim;
    var f := RequestFilter(name, mark, original, edited);
    SingleTriggerMatches(f.hosts[0], f.paths[0], f.verbs[0], RequestPhase, q.View());
    RequestConditionsExactly(name, mark, original, edited, q);
    PathTriggerMatches(original.path);
  }

  /** Whether a path lies under a directory: the case of ASCII letters does not matter, and a '*' in the
      name of the directory stands for any text. */
  ghost predicate IsUnder(dir: string, path: string) {
    if '*' in dir then Lang(Lower(dir) + "*", Lower(path)) else Lower(dir) <= Lower(path)
  }

  /** A path is its directory, up to the last slash, and a name without one. */
  predicate IsDirectoryOf(dir: string, file: string, path: string) {
    path == dir + file && '/' !in file && (dir == "" || dir[|dir| - 1] == '/')
  }

  lemma DirectoryOf(path: string) returns (dir: string, file: string)
    ensures IsDirectoryOf(dir, file, path)
  {
    match LastIndexOf(path, '/')
    case None => dir, file := "", path;
    case Some(i) => dir, file := path[..i + 1], path[i + 1..];
  }

  lemma PathTriggerIs(dir: string, file: string, path: string)
    requires IsDirectoryOf(dir, file, path)
    ensures PathTrigger(path) == (if path == "/" then "" else dir) + "*"
  {
    forall k | |dir| <= k < |path| ensures path[k] != '/' {
      assert path[k] == file[k - |dir|];
    }
    assert dir != "" ==> path[|dir| - 1] == '/';
    if path != "/" && path != "" {
      if EndsWith(path, "/") {
        assert path[|path| - 1] == '/';
        assert path == dir;
      } else if LastIndexOf(path, '/').Some? {
        var i := LastIndexOf(path, '/').value;
        assert i == |dir| - 1;
        assert dir == path[..i] + "/";
        assert path[..i] + "/*" == dir + "*";
        assert i == 0 ==> dir + "*" == "/*";
      }
    }
  }

  lemma StarAccepts(dir: string, path: string)
    ensures Accepts(Lower(dir + "*"), Lower(path)) <==> IsUnder(dir, path)
  {
    LowerConcat3(dir, "*");
    var d, v := Lower(dir), Lower(path);
    assert (d + "*")[|d + "*"| - 1] == '*';
    if '*' !in dir {
      assert '*' !in d;
      LangLiteral(d, "*", v);
      if d <= v { AnyTextMatchesStar(v[|d|..]); }
    }
  }

  /** What the conditions of a response filter ask for. */
  ghost predicate LooksLike(original: Message, edited: Message, s: FilterResponse)
    requires original.status.Some?
  {
    var contentType, before, after := original.BodyContentType(), original.BodyText(), edited.BodyText();
    && s.status == original.status.value
    && (contentType.Some? && Trim(contentType.value) != "" ==>
          Contains(s.body.contentType.GetOr(""), Trim(Before(contentType.value, ';'))))
    && (before.Some? && after.Some? && Trim(before.value) != "" && Trim(before.value) != Trim(after.value) ==>
          var anchor := TextAnchor(Trim(before.value), Trim(after.value));
          anchor.Some? ==> Contains(s.body.text.GetOr(""), anchor.value))
  }

  lemma ResponseConditionsExactly(
    name: string, mark: string, request: Message, original: Message, edited: Message, s: FilterResponse)
    requires original.status.Some? && edited.status.Some?
    ensures (forall c :: c in ResponseFilter(name, mark, request, original, edited).conditions ==>
               HoldsOfResponse(c, s)) <==> LooksLike(original, edited, s)
  {
    hide Contains, TextAnchor, Trim, Before;
    var cs := ResponseFilter(name, mark, request, original, edited).conditions;
    var contentType := original.BodyContentType();
    var anchor := BodyAnchor(original.BodyText(), edited.BodyText());
    assert StatusIs(original.status.value) in cs;
    assert contentType.Some? && Trim(contentType.value) != "" ==>
      ContentTypeContains(ContentTypePrefix(contentType.value)) in cs;
    assert anchor != [] ==> anchor[0] in cs;
  }

  /** A filter extracted from an edited response fires on exactly these flows: the captured host matches;
      the path lies under the directory of the captured one, any path if that is "/"; the method is the
      captured one, ignoring case; the status is the captured one; the content type contains the captured
      media type, if there is one; and the body contains the anchor, if one was chosen. */
  lemma ResponseFilterFiresExactly(
    a: Analysis, name: string, mark: string, request: Message, original: Message, edited: Message,
    dir: string, file: string, q: FilterRequest, s: FilterResponse)
    requires ExtractResponseFilter(a, name, mark, request, original, edited).Some?
    requires IsDirectoryOf(dir, file, request.path)
    ensures FiresOnResponse(ExtractResponseFilter(a, name, mark, request, original, edited).value, q, s) <==>
      && Accepts(Lower(request.host), Lower(q.host))
      && (request.path == "/" || IsUnder(dir, q.path))
      && EqIgnoreCase(q.verb, request.verb.GetOr("GET"))
      && LooksLike(original, edited, s)
  {
    hide Accepts, PathTrigger, DiffOf, RewriteFor, LooksLike, BodyAnchor, IsUnder;
    var f := ResponseFilter(name, mark, request, original, edited);
    SingleTriggerMatches(f.hosts[0], f.paths[0], f.verbs[0], ResponsePhase, q.View());
    ResponseConditionsExactly(name, mark, request, original, edited, s);
    PathTriggerIs(dir, file, request.path);
    var trigger := if request.path == "/" then "" else dir;
    StarAccepts(trigger, q.path);
    EverythingIsUnderNothing(q.path);
  }

  lemma EverythingIsUnderNothing(path: string)
    ensures IsUnder("", path)
  {
  }

  // ----- an editor opened on a raw content-type header

  /** The content type the filter pipeline reports for a header value. */
  function NormalizedContentType(header: string): Option<string> {
    var value := Trim(Before(header, ';'));
    if value == "" then None else Some(Lower(value))
  }

  /** When the editor took the content type from the raw header, the generated condition holds of
      the pipeline's content type exactly when the media type has no upper-case letter. */
  lemma RawContentTypeCondition(header: string)
    ensures Contains(NormalizedContentType(header).GetOr(""), ContentTypePrefix(header)) <==>
            Lower(ContentTypePrefix(header)) == ContentTypePrefix(header)
  {
    var value := ContentTypePrefix(header);
    var seen := NormalizedContentType(header).GetOr("");
    assert seen == Lower(value);
    if Contains(seen, value) {
      var i := Find(seen, value).value;
      assert i == 0 && seen[0..|value|] == seen;
    }
    if seen == value {
      assert seen[0..|value|] == value;
      assert OccursAt(seen, value, 0);
    }
  }

  // ----- what the filter does

  /** At most one action. */
  lemma RunOne(data: ActionData, phase: Kind, actions: seq<Action>)
    requires |actions| <= 1
    ensures RunChain(data, phase, actions) == if actions == [] then data else Apply(data, phase, actions[0])
  {
    if actions != [] { assert actions[1..] == []; }
  }

  function HeadData(mark: string, status: Option<U16>, body: Option<string>, contentType: string): ActionData {
    PASS.(marks := [mark], status := status, bodyText := body,
          bodyContentType := if body.Some? && contentType != "" then Some(contentType) else None)
  }

  lemma RunHead(kind: Kind, mark: string, status: seq<Action>, original: Message, edited: Message, contentType: string)
    requires |status| <= 1 && (status != [] ==> kind.Response? && status[0].SetStatus?)
    ensures RunChain(PASS, kind, [Mark(mark)] + status + BodyActions(kind, original, edited, contentType)) ==
            HeadData(mark, if status == [] then None else Some(status[0].status),
                     if original.BodyText() != edited.BodyText() then edited.BodyText() else None, contentType)
  {
    var body := BodyActions(kind, original, edited, contentType);
    RunOne(PASS, kind, [Mark(mark)]);
    var marked := PASS.(marks := [mark]);
    assert [] + [mark] == [mark];
    RunChainConcat(PASS, kind, [Mark(mark)], status);
    RunOne(marked, kind, status);
    RunChainConcat(PASS, kind, [Mark(mark)] + status, body);
    RunOne(RunChain(marked, kind, status), kind, body);
  }

  /** The data of an action without what it does to the body. */
  function Bare(data: ActionData): ActionData {
    data.(bodyText := None, bodyContentType := None)
  }

  /** Leaving out the body actions leaves out just what they do. */
  lemma {:induction false} RunWithoutBody(data: ActionData, kind: Kind, actions: seq<Action>)
    requires forall i :: 0 <= i < |actions| ==> !actions[i].RewriteBody?
    ensures RunChain(Bare(data), kind, WithoutBody(kind, actions)) == Bare(RunChain(data, kind, actions))
    decreases |actions|
  {
    if actions != [] {
      var next := Apply(data, kind, actions[0]);
      var rest := WithoutBody(kind, actions[1..]);
      RunWithoutBody(next, kind, actions[1..]);
      if IsBodyAction(kind, actions[0]) {
        assert [] + rest == rest;
      } else {
        assert ([actions[0]] + rest)[1..] == rest;
      }
    }
  }

  /** What the rewrite makes of the data the other actions build up. */
  function WithRewrite(data: ActionData, rewrite: Option<Rewrite>): ActionData {
    match rewrite
    case None => data
    case Some(r) => Bare(data).(rewrites := data.rewrites + [r])
  }

  lemma RunReplaced(kind: Kind, actions: seq<Action>, rewrite: Option<Rewrite>)
    requires forall i :: 0 <= i < |actions| ==> !actions[i].RewriteBody?
    ensures RunChain(PASS, kind, ReplaceBodyAction(kind, actions, rewrite)) ==
            WithRewrite(RunChain(PASS, kind, actions), rewrite)
  {
    if rewrite.Some? {
      RunWithoutBody(PASS, kind, actions);
      var last := [RewriteBody(kind, rewrite.value)];
      RunChainConcat(PASS, kind, WithoutBody(kind, actions), last);
      RunOne(RunChain(PASS, kind, WithoutBody(kind, actions)), kind, last);
    }
  }

  /** The data the actions of a request filter build up before the body action is replaced. */
  function RequestData(mark: string, original: Message, edited: Message): ActionData {
    var diff := DiffOf(original, edited);
    var dropped := HostRemoved(diff) != [];
    HeadData(mark, None, if diff.bodyChanged then edited.BodyText() else None, PLAIN_TEXT).(
      setHeaders := SetsOf(diff), removeHeaders := NamesOf(diff.removed), stop := dropped, drop := dropped)
  }

  lemma RunRequestActions(name: string, mark: string, original: Message, edited: Message)
    requires original.kind.Request?
    ensures RunChain(PASS, Request, RequestActions(name, mark, original, edited)) == RequestData(mark, original, edited)
  {
    hide RunChain, Missing, Changed, HeaderActionsOf, SetsOf, NamesOf;
    var diff := DiffOf(original, edited);
    var body := BodyActions(Request, original, edited, PLAIN_TEXT);
    var head := [Mark(mark)] + [] + body;
    assert [Mark(mark)] + [] == [Mark(mark)];
    RunHead(Request, mark, [], original, edited, PLAIN_TEXT);
    RunChainConcat(PASS, Request, head, HeaderActionsOf(diff));
    RunHeaderActions(RunChain(PASS, Request, head), diff);
    assert [] + SetsOf(diff) == SetsOf(diff) && [] + NamesOf(diff.removed) == NamesOf(diff.removed);
    RunChainConcat(PASS, Request, head + HeaderActionsOf(diff), HostRemoved(diff));
    RunOne(RunChain(PASS, Request, head + HeaderActionsOf(diff)), Request, HostRemoved(diff));
  }

  /** The data behind a generated request filter. */
  lemma RunRequestFilter(a: Analysis, name: string, mark: string, original: Message, edited: Message)
    requires ExtractRequestFilter(a, name, mark, original, edited).Some?
    ensures var f := ExtractRequestFilter(a, name, mark, original, edited).value;
      RunChain(PASS, Request, f.actions) ==
      WithRewrite(RequestData(mark, original, edited), RewriteFor(a, original, edited))
  {
    hide RunChain, DiffOf, RequestData, RewriteFor, HeaderActionsOf;
    RunRequestActions(name, mark, original, edited);
    NoRewrites(DiffOf(original, edited));
    RunReplaced(Request, RequestActions(name, mark, original, edited), RewriteFor(a, original, edited));
  }

  lemma NoRewrites(diff: Diff)
    ensures forall i :: 0 <= i < |HeaderActionsOf(diff)| ==> !HeaderActionsOf(diff)[i].RewriteBody?
  {
  }

  function ResponseData(mark: string, original: Message, edited: Message): ActionData {
    var diff := DiffOf(original, edited);
    HeadData(mark, if diff.statusChanged then edited.status else None,
             if diff.bodyChanged then edited.BodyText() else None, ResponseContentType(original, edited)).(
      setHeaders := SetsOf(diff), removeHeaders := NamesOf(diff.removed))
  }

  function ResponseContentType(original: Message, edited: Message): string {
    if edited.BodyContentType().Some? then edited.BodyContentType().value
    else original.BodyContentType().GetOr(PLAIN_TEXT)
  }

  lemma RunResponseActions(name: string, mark: string, request: Message, original: Message, edited: Message)
    requires original.kind.Response? && original.status.Some? && edited.status.Some?
    ensures RunChain(PASS, Response, ResponseActions(name, mark, request, original, edited)) ==
            ResponseData(mark, original, edited)
  {
    hide RunChain, Missing, Changed, HeaderActionsOf, SetsOf, NamesOf;
    var diff := DiffOf(original, edited);
    var contentType := ResponseContentType(original, edited);
    var status := if original.status != edited.status then [SetStatus(edited.status.value)] else [];
    RunHead(Response, mark, status, original, edited, contentType);
    var head := [Mark(mark)] + status + BodyActions(Response, original, edited, contentType);
    RunChainConcat(PASS, Response, head, HeaderActionsOf(diff));
    RunHeaderActions(RunChain(PASS, Response, head), diff);
    assert [] + SetsOf(diff) == SetsOf(diff) && [] + NamesOf(diff.removed) == NamesOf(diff.removed);
  }

  /** The data behind a generated response filter. */
  lemma RunResponseFilter(
    a: Analysis, name: string, mark: string, request: Message, original: Message, edited: Message)
    requires ExtractResponseFilter(a, name, mark, request, original, edited).Some?
    ensures var f := ExtractResponseFilter(a, name, mark, request, original, edited).value;
      RunChain(PASS, Response, f.actions) ==
      WithRewrite(ResponseData(mark, original, edited), RewriteFor(a, original, edited))
  {
    hide RunChain, DiffOf, ResponseData, RewriteFor, HeaderActionsOf;
    RunResponseActions(name, mark, request, original, edited);
    NoRewrites(DiffOf(original, edited));
    RunReplaced(Response, ResponseActions(name, mark, request, original, edited), RewriteFor(a, original, edited));
  }

  // ----- what the patch does

  function ApplyData(a: Analysis, rules: Rules, parts: Parts, data: ActionData, text: Option<string>): Parts {
    match IntoPatch(a.applyPatch, data, text)
    case None => parts
    case Some(patch) => PatchParts(rules, parts, patch)
  }

  /** Whether the edit gives the message a new text body. */
  predicate HasNewText(original: Message, edited: Message) {
    original.BodyText() != edited.BodyText() && edited.BodyText().Some?
  }

  /** When a new text body arrives: always if it is set as a whole; a JSON patch has to give that very
      text; any other rewrite has to arrive at it. */
  predicate NewTextArrives(a: Analysis, original: Message, edited: Message)
    requires HasNewText(original, edited)
  {
    match RewriteFor(a, original, edited)
    case None => true
    case Some(JsonPatch(_, patch, _)) =>
      original.BodyText().Some? && a.applyPatch(original.BodyText().value, patch) == edited.BodyText()
    case Some(_) =>
      var text := original.BodyText().value;
      var contentType :=
        if original.BodyContentType().Some? then original.BodyContentType() else edited.BodyContentType();
      var r := SingleReplacement(text, edited.BodyText().value).value;
      Arrives(text, r, PlaceOf(a, text, r, contentType))
  }

  /** The body patch of the flow the filter was made from holds the new text exactly then. */
  lemma NewTextArrivesExactly(a: Analysis, data: ActionData, original: Message, edited: Message)
    requires HasNewText(original, edited)
    requires data.bodyText == edited.BodyText() && data.rewrites == []
    ensures var rewritten := WithRewrite(data, RewriteFor(a, original, edited));
      var patch := IntoBodyPatch(a.applyPatch, rewritten, original.BodyText());
      patch.Some? && Some(patch.value.bytes) == edited.BodyText() <==> NewTextArrives(a, original, edited)
  {
    hide SingleReplacement, Arrives, PlaceOf, RewriteAt;
    var rewrite := RewriteFor(a, original, edited);
    if rewrite.Some? {
      assert [] + [rewrite.value] == [rewrite.value];
      if rewrite.value.JsonPatch? {
        if original.BodyText().Some? {
          OneRewrite(a.applyPatch, Rewritten(original.BodyText().value, None, false), rewrite.value);
        }
      } else {
        var text := original.BodyText().value;
        var contentType :=
          if original.BodyContentType().Some? then original.BodyContentType() else edited.BodyContentType();
        var r := SingleReplacement(text, edited.BodyText().value).value;
        RewriteArrives(a.applyPatch, text, edited.BodyText().value, PlaceOf(a, text, r, contentType));
      }
    }
  }

  /** What a name ends up with behind a patch with this body: the four that described the old body are
      gone, a valid content type of the body goes before that of the headers. */
  ghost predicate IsPatchedName(
    rules: Rules, h: HeaderMap, reached: seq<string>, key: string, body: Option<BodyPatch>)
  {
    if body.None? then At(h, key) == reached
    else if key in {"content-length", "content-encoding", "etag", "content-md5"} then key !in h
    else if key == "content-type" && body.value.contentType.Some? && rules.validValue(body.value.contentType.value)
    then At(h, key) == [body.value.contentType.value]
    else At(h, key) == reached
  }

  /** What a patch with this body does to the parts of the message the filter was made from. */
  ghost predicate CarriesOut(
    rules: Rules, before: Parts, after: Parts, original: Message, edited: Message, body: Option<BodyPatch>)
  {
    && after.verb == before.verb && after.target == before.target
    && after.body == (if body.Some? then body.value.bytes else before.body)
    && (forall key :: IsPatchedName(
          rules, after.headers, Reached(ValuesOf(original.headers, key), ValuesOf(edited.headers, key)), key, body))
    && (body.None? ==>
          (after.headers == FromHeaders(edited.headers) <==> IsReachable(original.headers, edited.headers)))
    && (body.Some? && IsReachable(original.headers, edited.headers) ==>
          forall key :: IsPatchedName(rules, after.headers, ValuesOf(edited.headers, key), key, body))
  }

  lemma PatchedName(rules: Rules, h: HeaderMap, left: HeaderMap, key: string, body: Option<BodyPatch>)
    requires if body.Some? then DescribesNewBody(rules, h, left, body.value.contentType) else h == left
    ensures IsPatchedName(rules, h, At(left, key), key, body)
  {
    IntegrityNames();
  }

  lemma ApplyDataEdits(
    a: Analysis, rules: Rules, before: Parts, original: Message, edited: Message, data: ActionData,
    text: Option<string>)
    requires AllValid(rules, original.headers) && AllValid(rules, edited.headers)
    requires before.headers == FromHeaders(original.headers)
    requires var diff := DiffOf(original, edited);
      data.setHeaders == SetsOf(diff) && data.removeHeaders == NamesOf(diff.removed)
    ensures var after := ApplyData(a, rules, before, data, text);
      && CarriesOut(rules, before, after, original, edited, IntoBodyPatch(a.applyPatch, data, text))
      && after.status ==
         if data.status.Some? && rules.validStatus(data.status.value) then data.status.value else before.status
  {
    var after := ApplyData(a, rules, before, data, text);
    var body := IntoBodyPatch(a.applyPatch, data, text);
    hide IntoBodyPatch, DiffOf, SetsOf, NamesOf, IsReachable, Reached, IsPatchedName, DescribesNewBody;
    var headers := PatchHeaders(rules, before.headers, data.setHeaders, data.removeHeaders);
    HeaderEditTakesEffect(rules, original, edited);
    forall k
      ensures At(headers, k) == Reached(ValuesOf(original.headers, k), ValuesOf(edited.headers, k))
    {
      PatchedAt(rules, original, edited, k);
    }
    if body.Some? {
      BodyHeadersDescribe(rules, headers, body.value.contentType);
      ReachedIsEdited(original.headers, edited.headers);
    }
    forall key ensures IsPatchedName(rules, after.headers, At(headers, key), key, body) {
      PatchedName(rules, after.headers, headers, key, body);
    }
  }

  /** The whole way for a request: the filter made from an edit turns the parts of that request into
      the edited ones, up to the first value of each header name, the headers of a new body, and a new
      text that a rewrite does not arrive at. */
  lemma RequestEditTakesEffect(
    a: Analysis, rules: Rules, name: string, mark: string, r: FilterRequest, edited: Message, before: Parts)
    requires ExtractRequestFilter(a, name, mark, FromRequest(r), edited).Some?
    requires AllValid(rules, r.headers) && AllValid(rules, edited.headers)
    requires before.headers == FromHeaders(r.headers)
    ensures var f := ExtractRequestFilter(a, name, mark, FromRequest(r), edited).value;
      var data := RunChain(PASS, Request, f.actions);
      var after := ApplyData(a, rules, before, data, r.body.text);
      && CarriesOut(rules, before, after, FromRequest(r), edited, IntoBodyPatch(a.applyPatch, data, r.body.text))
      && (HasNewText(FromRequest(r), edited) && Some(before.body) != edited.BodyText() ==>
            (Some(after.body) == edited.BodyText() <==> NewTextArrives(a, FromRequest(r), edited)))
      && (data.drop <==> ValuesOf(r.headers, "host") != [] && ValuesOf(edited.headers, "host") == [])
  {
    hide RunChain, IntoBodyPatch, NewTextArrives, RewriteFor, IsReachable, Reached;
    HostRemovedExactly(FromRequest(r), edited);
    RunRequestFilter(a, name, mark, FromRequest(r), edited);
    var data := RunChain(PASS, Request, ExtractRequestFilter(a, name, mark, FromRequest(r), edited).value.actions);
    ApplyDataEdits(a, rules, before, FromRequest(r), edited, data, r.body.text);
    if HasNewText(FromRequest(r), edited) {
      NewTextArrivesExactly(a, RequestData(mark, FromRequest(r), edited), FromRequest(r), edited);
    }
  }

  /** The whole way for a response; the status follows the edit whenever it is a valid status. */
  lemma ResponseEditTakesEffect(
    a: Analysis, rules: Rules, name: string, mark: string, r: FilterRequest, s: FilterResponse, edited: Message,
    before: Parts)
    requires ExtractResponseFilter(a, name, mark, FromRequest(r), FromResponse(r, s), edited).Some?
    requires AllValid(rules, s.headers) && AllValid(rules, edited.headers)
    requires before.headers == FromHeaders(s.headers) && before.status == s.status
    ensures var f := ExtractResponseFilter(a, name, mark, FromRequest(r), FromResponse(r, s), edited).value;
      var data := RunChain(PASS, Response, f.actions);
      var after := ApplyData(a, rules, before, data, s.body.text);
      && CarriesOut(rules, before, after, FromResponse(r, s), edited, IntoBodyPatch(a.applyPatch, data, s.body.text))
      && (HasNewText(FromResponse(r, s), edited) && Some(before.body) != edited.BodyText() ==>
            (Some(after.body) == edited.BodyText() <==> NewTextArrives(a, FromResponse(r, s), edited)))
      && (after.status == edited.status.value <==>
          s.status == edited.status.value || rules.validStatus(edited.status.value))
  {
    hide RunChain, IntoBodyPatch, NewTextArrives, RewriteFor, IsReachable, Reached;
    var original := FromResponse(r, s);
    RunResponseFilter(a, name, mark, FromRequest(r), original, edited);
    var f := ExtractResponseFilter(a, name, mark, FromRequest(r), original, edited).value;
    var data := RunChain(PASS, Response, f.actions);
    ApplyDataEdits(a, rules, before, original, edited, data, s.body.text);
    if HasNewText(original, edited) {
      NewTextArrivesExactly(a, ResponseData(mark, original, edited), original, edited);
    }
  }

  /** A new text of a request that no rewrite expresses is set as a whole, as plain text. */
  lemma NewRequestText(
    a: Analysis, name: string, mark: string, original: Message, edited: Message, text: Option<string>)
    requires ExtractRequestFilter(a, name, mark, original, edited).Some?
    requires HasNewText(original, edited) && RewriteFor(a, original, edited).None?
    ensures var f := ExtractRequestFilter(a, name, mark, original, edited).value;
      IntoBodyPatch(a.applyPatch, RunChain(PASS, Request, f.actions), text) ==
      Some(BodyPatch(edited.BodyText().value, Some("text/plain; charset=utf-8")))
  {
    hide RunChain, RewriteFor, ExtractRequestFilter, DiffOf;
    RunRequestFilter(a, name, mark, original, edited);
    BodyChanges(original, edited);
  }

  lemma BodyChanges(original: Message, edited: Message)
    ensures DiffOf(original, edited).bodyChanged <==> original.BodyText() != edited.BodyText()
    ensures PLAIN_TEXT == "text/plain; charset=utf-8" && |PLAIN_TEXT| == 25
  {
  }

  /** One of a response keeps the content type of the edit, or else that of the original. */
  lemma NewResponseText(
    a: Analysis, name: string, mark: string, request: Message, original: Message, edited: Message,
    text: Option<string>)
    requires ExtractResponseFilter(a, name, mark, request, original, edited).Some?
    requires HasNewText(original, edited) && RewriteFor(a, original, edited).None?
    ensures var f := ExtractResponseFilter(a, name, mark, request, original, edited).value;
      var own, before := edited.BodyContentType(), original.BodyContentType();
      var contentType :=
        if own.Some? then own.value else if before.Some? then before.value else "text/plain; charset=utf-8";
      IntoBodyPatch(a.applyPatch, RunChain(PASS, Response, f.actions), text) ==
      Some(BodyPatch(edited.BodyText().value, if contentType == "" then None else Some(contentType)))
  {
    hide RunChain, RewriteFor, ExtractResponseFilter, DiffOf;
    RunResponseFilter(a, name, mark, request, original, edited);
    BodyChanges(original, edited);
  }

  // ----- edits that do not arrive

  /** An edit of a plain text body, as far as these cases look at it. */
  predicate IsPlainEdit(a: Analysis, original: Message, edited: Message, before: string, after: string) {
    && original.body == TextBody(before, None) && edited.body == TextBody(after, None)
    && a.operations(original.body, edited.body) == []
  }

  lemma PlainRewrite(a: Analysis, original: Message, edited: Message, before: string, after: string)
    requires IsPlainEdit(a, original, edited, before, after) && before != after
    ensures RewriteFor(a, original, edited) ==
            match SingleReplacement(before, after)
            case None => None
            case Some(r) => Some(TextOnce(r.removed, r.inserted))
    ensures forall r :: PlaceOf(a, before, r, None) == Node
  {
    hide SingleReplacement;
  }

  lemma PlainEditRewrite(a: Analysis, original: Message, edited: Message, before: string, after: string)
    requires IsPlainEdit(a, original, edited, before, after) && HasNewText(original, edited)
    ensures SingleReplacement(before, after).None? ==> NewTextArrives(a, original, edited)
    ensures SingleReplacement(before, after).Some? ==>
      (NewTextArrives(a, original, edited) <==> Arrives(before, SingleReplacement(before, after).value, Node))
  {
    hide SingleReplacement, Arrives, RewriteFor, PlaceOf;
    PlainRewrite(a, original, edited, before, after);
  }

  /** Appending to a plain text body never arrives. */
  lemma AppendedTextIsLost(a: Analysis, original: Message, edited: Message)
    requires IsPlainEdit(a, original, edited, "hello", "hello world")
    ensures HasNewText(original, edited) && !NewTextArrives(a, original, edited)
  {
    hide SingleReplacement, NewTextArrives;
    InsertionIsLost(a.applyPatch);
    assert |"hello"| != |"hello world"|;
    PlainEditRewrite(a, original, edited, "hello", "hello world");
  }

  /** Editing the second of two equal pieces does not arrive. */
  lemma SecondPieceIsMissed(a: Analysis, original: Message, edited: Message)
    requires IsPlainEdit(a, original, edited, "a=1&b=1", "a=1&b=2")
    ensures HasNewText(original, edited) && !NewTextArrives(a, original, edited)
  {
    hide SingleReplacement, NewTextArrives, Find, FindFrom;
    WrongPieceIsRewritten(a.applyPatch);
    assert "a=1&b=1"[6] != "a=1&b=2"[6];
    assert "a=1&b=1"[6..6 + 1] == "1";
    FoundThere("a=", '1', "&b=1");
    assert "a=" + ['1'] + "&b=1" == "a=1&b=1" && ['1'] == "1";
    ReplacingArrives("a=1&b=1", Replacement(6, "1", "2"));
    PlainEditRewrite(a, original, edited, "a=1&b=1", "a=1&b=2");
  }
}
